/** `/api/package-download`: archive one directory on the remote host with
    `tar`, stream the archive, and remove the temporary archive with `rm`
    when the transfer is over. */
module PackageDownload {
  import opened Wrappers
  import opened PosixPath
  import opened ShellWords
  import opened RemoteExec
  import opened FileApi

  /** The temporary archive; `stamp` and `token` stand for `Date.now()` and
      the base-36 digits of `Math.random()`. */
  function TempPath(stamp: string, token: string): string {
    "/tmp/webtop-download-" + stamp + "-" + token + ".tar.gz"
  }

  /** The name the browser saves the archive under. */
  function ArchiveName(path: string): string {
    Basename(path) + ".tar.gz"
  }

  // ---- The commands as the handler writes them ----

  /** `tar -czf "<temp>" -C "<dir>" "<base>"`: the words separated by single
      spaces, each path in double quotes, nothing escaped. */
  function TarCommand(temp: string, dir: string, base: string): string {
    CommandLine([Bare("tar"), Bare("-czf"), Dq(temp), Bare("-C"), Dq(dir), Dq(base)])
  }

  /** `rm -f "<temp>"`. */
  function RmCommand(temp: string): string {
    CommandLine([Bare("rm"), Bare("-f"), Dq(temp)])
  }

  /** Text that double quotes pass through unchanged. */
  predicate DqSafe(t: string) {
    forall i :: 0 <= i < |t| ==> DqPlain(t[i])
  }

  /** The template spelled out: the text of both commands. */
  lemma CommandTexts(temp: string, dir: string, base: string)
    ensures TarCommand(temp, dir, base)
         == "tar" + " " + ("-czf" + " " + ("\"" + temp + "\"" + " " + ("-C" + " " + ("\"" + dir + "\"" + " " + ("\"" + base + "\"")))))
    ensures RmCommand(temp) == "rm" + " " + ("-f" + " " + ("\"" + temp + "\""))
  {
    var a5 := [Dq(base)];
    var a4 := [Dq(dir)] + a5;
    var a3 := [Bare("-C")] + a4;
    var a2 := [Dq(temp)] + a3;
    var a1 := [Bare("-czf")] + a2;
    var a0 := [Bare("tar")] + a1;
    assert a0 == [Bare("tar"), Bare("-czf"), Dq(temp), Bare("-C"), Dq(dir), Dq(base)];
    CommandLineCons(Dq(dir), a5);
    CommandLineCons(Bare("-C"), a4);
    CommandLineCons(Dq(temp), a3);
    CommandLineCons(Bare("-czf"), a2);
    CommandLineCons(Bare("tar"), a1);
    var r2 := [Dq(temp)];
    var r1 := [Bare("-f")] + r2;
    assert [Bare("rm")] + r1 == [Bare("rm"), Bare("-f"), Dq(temp)];
    CommandLineCons(Bare("-f"), r2);
    CommandLineCons(Bare("rm"), r1);
  }

  /** For paths free of `"`, `\`, `$` and `` ` `` the shell hands `tar`
      exactly the temporary archive, the parent directory and the base name,
      and `rm` the same temporary archive. */
  lemma AsWrittenWordsWhenSafe(temp: string, dir: string, base: string)
    requires DqSafe(temp) && DqSafe(dir) && DqSafe(base)
    ensures Words(TarCommand(temp, dir, base)) == Some(["tar", "-czf", temp, "-C", dir, base])
    ensures Words(RmCommand(temp)) == Some(["rm", "-f", temp])
  {
    PlainWords();
    var tar := [Bare("tar"), Bare("-czf"), Dq(temp), Bare("-C"), Dq(dir), Dq(base)];
    assert WellFormed(tar[2]) && WellFormed(tar[4]) && WellFormed(tar[5]);
    LineWords(tar);
    assert Texts(tar) == ["tar", "-czf", temp, "-C", dir, base];
    var rm := [Bare("rm"), Bare("-f"), Dq(temp)];
    assert WellFormed(rm[2]);
    LineWords(rm);
    assert Texts(rm) == ["rm", "-f", temp];
  }

  lemma PlainWords()
    ensures WellFormed(Bare("tar")) && WellFormed(Bare("-czf")) && WellFormed(Bare("-C"))
    ensures WellFormed(Bare("rm")) && WellFormed(Bare("-f"))
  {
    var t := "tar";
    assert Plain(t[0]) && Plain(t[1]) && Plain(t[2]);
    var z := "-czf";
    assert Plain(z[0]) && Plain(z[1]) && Plain(z[2]) && Plain(z[3]);
    var c := "-C";
    assert Plain(c[0]) && Plain(c[1]);
    var r := "rm";
    assert Plain(r[0]) && Plain(r[1]);
    var f := "-f";
    assert Plain(f[0]) && Plain(f[1]);
  }

  /** A directory called `a" "b` reaches `tar` as the two names `a` and `b`:
      the double quote in the name closes the quoting. */
  lemma QuoteInNameSplitsIt(temp: string, dir: string)
    requires DqSafe(temp) && DqSafe(dir)
    ensures Words(TarCommand(temp, dir, "a\" \"b")) == Some(["tar", "-czf", temp, "-C", dir, "a", "b"])
  {
    var pre := [Bare("tar"), Bare("-czf"), Dq(temp), Bare("-C"), Dq(dir)];
    var args := pre + [Dq("a"), Dq("b")];
    CommandLineAppend(pre, [Dq("a\" \"b")]);
    CommandLineAppend(pre, [Dq("a"), Dq("b")]);
    TwoQuotedNames();
    assert pre + [Dq("a\" \"b")] == [Bare("tar"), Bare("-czf"), Dq(temp), Bare("-C"), Dq(dir), Dq("a\" \"b")];
    assert TarCommand(temp, dir, "a\" \"b") == CommandLine(args);
    SplitNameWords(args, temp, dir);
  }

  lemma SplitNameWords(args: seq<Arg>, temp: string, dir: string)
    requires args == [Bare("tar"), Bare("-czf"), Dq(temp), Bare("-C"), Dq(dir), Dq("a"), Dq("b")]
    requires DqSafe(temp) && DqSafe(dir)
    ensures Words(CommandLine(args)) == Some(["tar", "-czf", temp, "-C", dir, "a", "b"])
  {
    PlainWords();
    var a := "a";
    var b := "b";
    assert DqPlain(a[0]) && DqPlain(b[0]);
    assert WellFormed(args[2]) && WellFormed(args[4]) && WellFormed(args[5]) && WellFormed(args[6]);
    LineWords(args);
    assert Texts(args) == ["tar", "-czf", temp, "-C", dir, "a", "b"];
  }

  lemma TwoQuotedNames()
    ensures CommandLine([Dq("a\" \"b")]) == CommandLine([Dq("a"), Dq("b")])
  {
    assert CommandLine([Dq("b")]) == "\"b\"";
    assert "\"" + "a\" \"b" + "\"" == "\"a\"" + " " + "\"b\"";
  }

  // ---- The commands with every path single-quoted ----

  function QuotedTarCommand(temp: string, dir: string, base: string): string {
    CommandLine([Bare("tar"), Bare("-czf"), Sq(temp), Bare("-C"), Sq(dir), Sq(base)])
  }

  function QuotedRmCommand(temp: string): string {
    CommandLine([Bare("rm"), Bare("-f"), Sq(temp)])
  }

  /** Single-quoted, the paths reach `tar` and `rm` unchanged whatever they
      hold. */
  lemma QuotedWords(temp: string, dir: string, base: string)
    ensures Words(QuotedTarCommand(temp, dir, base)) == Some(["tar", "-czf", temp, "-C", dir, base])
    ensures Words(QuotedRmCommand(temp)) == Some(["rm", "-f", temp])
  {
    PlainWords();
    var tar := [Bare("tar"), Bare("-czf"), Sq(temp), Bare("-C"), Sq(dir), Sq(base)];
    LineWords(tar);
    assert Texts(tar) == ["tar", "-czf", temp, "-C", dir, base];
    var rm := [Bare("rm"), Bare("-f"), Sq(temp)];
    LineWords(rm);
    assert Texts(rm) == ["rm", "-f", temp];
  }

  /** Where the handler's quoting works, the single-quoted commands mean the
      same. */
  lemma QuotingAgreesWhenSafe(temp: string, dir: string, base: string)
    requires DqSafe(temp) && DqSafe(dir) && DqSafe(base)
    ensures Words(TarCommand(temp, dir, base)) == Words(QuotedTarCommand(temp, dir, base))
    ensures Words(RmCommand(temp)) == Words(QuotedRmCommand(temp))
  {
    AsWrittenWordsWhenSafe(temp, dir, base);
    QuotedWords(temp, dir, base);
  }

  // ---- The handler ----

  /** After the checks: the archive name, the temporary path and the two
      commands, or the refusal. */
  datatype Start =
    | Refused(reply: Reply)
    | Archiving(archive: string, temp: string, tar: string, rm: string)

  function Begin(ready: bool, query: Option<string>, stamp: string, token: string): Start {
    if !ready then Refused(Reply(503, TextNote(SshUnavailable)))
    else if !Given(query) then Refused(Reply(400, TextNote(DirectoryPathRequired)))
    else
      var p := query.value;
      var temp := TempPath(stamp, token);
      Archiving(ArchiveName(p), temp, TarCommand(temp, Dirname(p), Basename(p)), RmCommand(temp))
  }

  /** The same checks issuing the single-quoted commands instead. */
  function BeginCorrected(ready: bool, query: Option<string>, stamp: string, token: string): Start {
    match Begin(ready, query, stamp, token)
    case Refused(r) => Refused(r)
    case Archiving(archive, temp, _, _) =>
      var p := query.value;
      Archiving(archive, temp, QuotedTarCommand(temp, Dirname(p), Basename(p)), QuotedRmCommand(temp))
  }

  /** What happens once the archive is being piped: the pipe writes data,
      the pipe ends the response, the response's `finish`, the request's
      `close`, the read stream's `error`. */
  datatype TransferEvent = DataSent | PipeEnded | ResponseFinished | ClientClosed | StreamFailed

  /** The remote commands issued so far, the reply, the response's
      `headersSent` and `finished`, and whether the handler threw where
      nothing catches it, ending the server process. */
  datatype Transfer = Transfer(commands: seq<string>, reply: Option<Reply>, headersSent: bool, ended: bool, crashed: bool)

  /** The reply once the pipe has ended the response: a streamed body has
      been delivered in full. Any other reply is kept. */
  function Delivered(r: Option<Reply>): Option<Reply> {
    if r.Some? && r.value.body.FileStream? then Some(r.value.(body := r.value.body.(complete := true))) else r
  }

  /** One event; `rm` is the cleanup command. A stream error after the
      headers leaves the streamed reply incomplete and the response open. */
  function Step(st: Transfer, e: TransferEvent, rm: string): Transfer {
    match e
    case DataSent => st.(headersSent := true)
    case PipeEnded => st.(headersSent := true, ended := true, reply := Delivered(st.reply))
    case ResponseFinished => st.(commands := st.commands + [rm])
    case ClientClosed => if st.ended then st else st.(commands := st.commands + [rm])
    case StreamFailed =>
      var cleaned := st.(commands := st.commands + [rm]);
      if st.headersSent then cleaned
      else cleaned.(reply := Some(Reply(500, TextNote(ArchiveTransferFailed))), headersSent := true, ended := true)
  }

  function Run(st: Transfer, events: seq<TransferEvent>, rm: string): Transfer
    decreases |events|
  {
    if |events| == 0 then st else Run(Step(st, events[0], rm), events[1..], rm)
  }

  /** The whole request: the checks, `tar`, `stat` of the archive, the
      attachment header, then the transfer events. An archive name the header
      refuses throws in the `stat` callback, before the cleanup listeners
      exist: no reply is sent and the archive stays. */
  function PackageHandled(ready: bool, query: Option<string>, stamp: string, token: string,
                          tarOutcome: Result<string, CommandError>, stat: Option<Attrs>,
                          events: seq<TransferEvent>): Transfer
  {
    match Begin(ready, query, stamp, token)
    case Refused(r) => Transfer([], Some(r), true, true, false)
    case Archiving(archive, temp, tar, rm) =>
      if tarOutcome.Failure? then Transfer([tar, rm], Some(Reply(500, TextNote(ArchiveFailed))), true, true, false)
      else if stat.None? then Transfer([tar, rm], Some(Reply(500, TextNote(ArchiveStatFailed))), true, true, false)
      else if !HeaderSafe(Attachment(archive)) then Transfer([tar], None, false, false, true)
      else Run(Transfer([tar], Some(Reply(200, FileStream(archive, stat.value.size, temp, false))), false, false, false), events, rm)
  }

  /** The refusals: 503 without SSH/SFTP, 400 without a path, and no remote
      command in either case. */
  lemma Refusals(query: Option<string>, stamp: string, token: string,
                 tarOutcome: Result<string, CommandError>, stat: Option<Attrs>, events: seq<TransferEvent>)
    ensures var t := PackageHandled(false, query, stamp, token, tarOutcome, stat, events);
      t.commands == [] && t.reply == Some(Reply(503, TextNote(SshUnavailable)))
    ensures !Given(query) ==>
      var t := PackageHandled(true, query, stamp, token, tarOutcome, stat, events);
      t.commands == [] && t.reply == Some(Reply(400, TextNote(DirectoryPathRequired)))
  {
  }

  /** The archive is named after the directory, `tar` archives the base name
      from the parent directory into the temporary path, and `rm` removes
      that same path. */
  lemma NamingAndCommands(path: string, stamp: string, token: string)
    requires path != ""
    requires DqSafe(TempPath(stamp, token)) && DqSafe(Dirname(path)) && DqSafe(Basename(path))
    ensures var b := Begin(true, Some(path), stamp, token);
      && b.Archiving?
      && b.archive == Basename(path) + ".tar.gz"
      && b.temp == TempPath(stamp, token)
      && Words(b.tar) == Some(["tar", "-czf", b.temp, "-C", Dirname(path), Basename(path)])
      && Words(b.rm) == Some(["rm", "-f", b.temp])
  {
    var temp, dir, base := TempPath(stamp, token), Dirname(path), Basename(path);
    BeginArchives(path, stamp, token);
    AsWrittenWordsWhenSafe(temp, dir, base);
  }

  lemma BeginArchives(path: string, stamp: string, token: string)
    requires path != ""
    ensures var temp := TempPath(stamp, token);
      Begin(true, Some(path), stamp, token)
        == Archiving(ArchiveName(path), temp, TarCommand(temp, Dirname(path), Basename(path)), RmCommand(temp))
    ensures var temp := TempPath(stamp, token);
      BeginCorrected(true, Some(path), stamp, token)
        == Archiving(ArchiveName(path), temp, QuotedTarCommand(temp, Dirname(path), Basename(path)), QuotedRmCommand(temp))
  {
  }

  /** With single quotes the same holds for every path, whatever the names
      hold. */
  lemma NamingAndCommandsCorrected(path: string, stamp: string, token: string)
    requires path != ""
    ensures var b := BeginCorrected(true, Some(path), stamp, token);
      && b.Archiving?
      && b.archive == Basename(path) + ".tar.gz"
      && b.temp == TempPath(stamp, token)
      && Words(b.tar) == Some(["tar", "-czf", b.temp, "-C", Dirname(path), Basename(path)])
      && Words(b.rm) == Some(["rm", "-f", b.temp])
  {
    BeginArchives(path, stamp, token);
    QuotedWords(TempPath(stamp, token), Dirname(path), Basename(path));
  }

  /** The corrected handler refuses exactly when the handler does, with the
      same reply. */
  lemma CorrectedRefusesAlike(ready: bool, query: Option<string>, stamp: string, token: string)
    ensures BeginCorrected(ready, query, stamp, token).Refused? <==> !ready || !Given(query)
    ensures BeginCorrected(ready, query, stamp, token).Refused? ==>
      BeginCorrected(ready, query, stamp, token) == Begin(ready, query, stamp, token)
  {
  }

  /** Where the handler's quoting works, the corrected handler issues
      commands that the shell splits into the same words. */
  lemma CorrectedAgreesWhenSafe(path: string, stamp: string, token: string)
    requires path != ""
    requires DqSafe(TempPath(stamp, token)) && DqSafe(Dirname(path)) && DqSafe(Basename(path))
    ensures var b := BeginCorrected(true, Some(path), stamp, token);
      var w := Begin(true, Some(path), stamp, token);
      && b.Archiving? && w.Archiving?
      && Words(b.tar) == Words(w.tar) && Words(b.rm) == Words(w.rm)
  {
    BeginArchives(path, stamp, token);
    QuotingAgreesWhenSafe(TempPath(stamp, token), Dirname(path), Basename(path));
  }

  /** A failed `tar` or a failed `stat` cleans up once and answers 500. */
  lemma FailuresCleanUp(path: string, stamp: string, token: string,
                        tarOutcome: Result<string, CommandError>, stat: Option<Attrs>, events: seq<TransferEvent>)
    requires path != "" && (tarOutcome.Failure? || stat.None?)
    ensures var b := Begin(true, Some(path), stamp, token);
      var t := PackageHandled(true, Some(path), stamp, token, tarOutcome, stat, events);
      && t.commands == [b.tar, b.rm]
      && t.reply.Some? && t.reply.value.status == 500
  {
  }

  /** Every event only appends cleanups to the commands. */
  lemma {:induction false} RunAppendsCleanups(st: Transfer, events: seq<TransferEvent>, rm: string)
    ensures var r := Run(st, events, rm);
      && |r.commands| >= |st.commands|
      && r.commands[..|st.commands|] == st.commands
      && forall i :: |st.commands| <= i < |r.commands| ==> r.commands[i] == rm
    decreases |events|
  {
    if |events| > 0 {
      var next := Step(st, events[0], rm);
      RunAppendsCleanups(next, events[1..], rm);
      var r := Run(st, events, rm);
      assert r == Run(next, events[1..], rm);
      assert next.commands == st.commands || next.commands == st.commands + [rm];
      assert r.commands[..|next.commands|] == next.commands;
      if next.commands != st.commands {
        assert r.commands[|st.commands|] == next.commands[|st.commands|] == rm;
        assert r.commands[..|st.commands|] == next.commands[..|st.commands|];
      }
    }
  }

  /** Once `finish` or a stream error occurs, cleanup has run at least once. */
  lemma {:induction false} CleanupRuns(st: Transfer, events: seq<TransferEvent>, rm: string)
    requires ResponseFinished in events || StreamFailed in events
    ensures |Run(st, events, rm).commands| > |st.commands|
    decreases |events|
  {
    var next := Step(st, events[0], rm);
    RunAppendsCleanups(next, events[1..], rm);
    if events[0] != ResponseFinished && events[0] != StreamFailed {
      assert ResponseFinished in events[1..] || StreamFailed in events[1..];
      CleanupRuns(next, events[1..], rm);
    }
  }

  /** Past the checks, `tar`, `stat` and the header, the request is the
      transfer run from the 200 with only `tar` issued. */
  lemma Streaming(path: string, stamp: string, token: string, tarOut: string, a: Attrs, events: seq<TransferEvent>)
    requires path != "" && HeaderSafe(Basename(path))
    ensures var b := Begin(true, Some(path), stamp, token);
      && b.Archiving?
      && PackageHandled(true, Some(path), stamp, token, Success(tarOut), Some(a), events)
         == Run(Transfer([b.tar], Some(Reply(200, FileStream(ArchiveName(path), a.size, b.temp, false))), false, false, false), events, b.rm)
  {
    ArchiveNameSafe(path);
  }

  /** A transfer that completes cleans up exactly once: the later `close`
      finds the response finished. */
  lemma CompleteTransferCleansOnce(path: string, stamp: string, token: string, tarOut: string, a: Attrs)
    requires path != "" && HeaderSafe(Basename(path))
    ensures var b := Begin(true, Some(path), stamp, token);
      var t := PackageHandled(true, Some(path), stamp, token, Success(tarOut), Some(a),
                              [DataSent, PipeEnded, ResponseFinished, ClientClosed]);
      && t.commands == [b.tar, b.rm]
      && t.reply == Some(Reply(200, FileStream(Basename(path) + ".tar.gz", a.size, b.temp, true)))
  {
    Streaming(path, stamp, token, tarOut, a, [DataSent, PipeEnded, ResponseFinished, ClientClosed]);
  }

  /** A stream error before any data sends a 500, whose own `finish` runs
      the cleanup a second time. */
  lemma EarlyErrorCleansTwice(path: string, stamp: string, token: string, tarOut: string, a: Attrs)
    requires path != "" && HeaderSafe(Basename(path))
    ensures var b := Begin(true, Some(path), stamp, token);
      var t := PackageHandled(true, Some(path), stamp, token, Success(tarOut), Some(a),
                              [StreamFailed, ResponseFinished]);
      && t.commands == [b.tar, b.rm, b.rm]
      && t.reply == Some(Reply(500, TextNote(ArchiveTransferFailed)))
  {
    Streaming(path, stamp, token, tarOut, a, [StreamFailed, ResponseFinished]);
  }

  /** A stream error midway, then the client giving up, also cleans up twice. */
  lemma MidwayErrorCleansTwice(path: string, stamp: string, token: string, tarOut: string, a: Attrs)
    requires path != "" && HeaderSafe(Basename(path))
    ensures var b := Begin(true, Some(path), stamp, token);
      var t := PackageHandled(true, Some(path), stamp, token, Success(tarOut), Some(a),
                              [DataSent, StreamFailed, ClientClosed]);
      && t.commands == [b.tar, b.rm, b.rm]
      && t.reply == Some(Reply(200, FileStream(Basename(path) + ".tar.gz", a.size, b.temp, false)))
      && !t.ended
  {
    Streaming(path, stamp, token, tarOut, a, [DataSent, StreamFailed, ClientClosed]);
  }

  /** The client leaving before the end cleans up. */
  lemma EarlyCloseCleans(path: string, stamp: string, token: string, tarOut: string, a: Attrs)
    requires path != "" && HeaderSafe(Basename(path))
    ensures var b := Begin(true, Some(path), stamp, token);
      PackageHandled(true, Some(path), stamp, token, Success(tarOut), Some(a), [DataSent, ClientClosed]).commands
        == [b.tar, b.rm]
  {
    Streaming(path, stamp, token, tarOut, a, [DataSent, ClientClosed]);
  }

  /** A reply that streams a body delivered in full. */
  predicate CompleteStream(r: Option<Reply>) {
    r.Some? && r.value.body.FileStream? && r.value.body.complete
  }

  /** Without a stream error the 200 stays, and it is complete exactly when
      it was already or the pipe ends the response. */
  lemma {:induction false} RunDelivers(st: Transfer, events: seq<TransferEvent>, rm: string,
                                       name: string, size: nat, source: string, c: bool)
    requires StreamFailed !in events
    requires st.reply == Some(Reply(200, FileStream(name, size, source, c)))
    ensures Run(st, events, rm).reply == Some(Reply(200, FileStream(name, size, source, c || PipeEnded in events)))
    decreases |events|
  {
    if |events| > 0 {
      var c' := c || events[0] == PipeEnded;
      assert Step(st, events[0], rm).reply == Some(Reply(200, FileStream(name, size, source, c')));
      assert forall e :: e in events <==> e == events[0] || e in events[1..];
      RunDelivers(Step(st, events[0], rm), events[1..], rm, name, size, source, c');
    }
  }

  /** Only the pipe's end makes a reply a complete stream. */
  lemma {:induction false} OnlyPipeCompletes(st: Transfer, events: seq<TransferEvent>, rm: string)
    requires !CompleteStream(st.reply) && PipeEnded !in events
    ensures !CompleteStream(Run(st, events, rm).reply)
    decreases |events|
  {
    if |events| > 0 {
      assert events[0] != PipeEnded;
      assert !CompleteStream(Step(st, events[0], rm).reply);
      assert PipeEnded !in events[1..];
      OnlyPipeCompletes(Step(st, events[0], rm), events[1..], rm);
    }
  }

  /** For a header-safe name, the archive is sent in full only when the pipe
      ends the response; without a stream error the reply is the 200 stream,
      complete exactly when it does. */
  lemma DeliveredIffPiped(path: string, stamp: string, token: string, tarOut: string, a: Attrs,
                          events: seq<TransferEvent>)
    requires path != "" && HeaderSafe(Basename(path))
    ensures var t := PackageHandled(true, Some(path), stamp, token, Success(tarOut), Some(a), events);
      CompleteStream(t.reply) ==> PipeEnded in events
    ensures var b := Begin(true, Some(path), stamp, token);
      var t := PackageHandled(true, Some(path), stamp, token, Success(tarOut), Some(a), events);
      StreamFailed !in events ==>
        t.reply == Some(Reply(200, FileStream(Basename(path) + ".tar.gz", a.size, b.temp, PipeEnded in events)))
  {
    Streaming(path, stamp, token, tarOut, a, events);
    var b := Begin(true, Some(path), stamp, token);
    var st := Transfer([b.tar], Some(Reply(200, FileStream(ArchiveName(path), a.size, b.temp, false))), false, false, false);
    if PipeEnded !in events {
      OnlyPipeCompletes(st, events, b.rm);
    }
    if StreamFailed !in events {
      RunDelivers(st, events, b.rm, ArchiveName(path), a.size, b.temp, false);
    }
  }

  /** The archive's name is accepted by the header exactly when the
      directory's base name is. */
  lemma ArchiveNameSafe(path: string)
    ensures HeaderSafe(Attachment(ArchiveName(path))) <==> HeaderSafe(Basename(path))
  {
    var ext := ".tar.gz";
    assert HeaderSafe(ext) by {
      forall i | 0 <= i < |ext| ensures HeaderChar(ext[i]) { assert ' ' <= ext[i] <= '~'; }
    }
    AttachmentSafe(ArchiveName(path));
    SafeConcat(Basename(path), ext);
  }

  /** A directory whose base name the header refuses: `tar` has run, then
      the handler throws, so there is no reply and `rm` never runs. */
  lemma UnsafeNameKeepsArchive(path: string, stamp: string, token: string, tarOut: string, a: Attrs,
                               events: seq<TransferEvent>)
    requires path != "" && !HeaderSafe(Basename(path))
    ensures var b := Begin(true, Some(path), stamp, token);
      var t := PackageHandled(true, Some(path), stamp, token, Success(tarOut), Some(a), events);
      && t.commands == [b.tar]
      && t.crashed && t.reply.None?
      && b.rm !in t.commands
  {
    ArchiveNameSafe(path);
    var b := Begin(true, Some(path), stamp, token);
    assert b.tar != b.rm by { TarIsNotRm(b.temp, Dirname(path), Basename(path)); }
  }

  lemma TarIsNotRm(temp: string, dir: string, base: string)
    ensures TarCommand(temp, dir, base) != RmCommand(temp)
  {
    CommandTexts(temp, dir, base);
    var t := TarCommand(temp, dir, base);
    assert t[0] == 't';
    assert RmCommand(temp)[0] == 'r';
  }

  /** `/root/报告`: archived, then no reply and the archive left behind. */
  lemma NonLatinDirectoryKeepsArchive(stamp: string, token: string, tarOut: string, a: Attrs,
                                      events: seq<TransferEvent>)
    ensures var b := Begin(true, Some(ReportDir), stamp, token);
      var t := PackageHandled(true, Some(ReportDir), stamp, token, Success(tarOut), Some(a), events);
      t.commands == [b.tar] && t.crashed
  {
    var x := ReportDirName;
    assert forall i :: 0 <= i < |x| ==> x[i] != '/';
    LastComponent("/root", x, ReportDir);
    assert !HeaderChar(x[0]);
    UnsafeNameKeepsArchive(ReportDir, stamp, token, tarOut, a, events);
  }

  const ReportDirName: string := "\U{62A5}\U{544A}"
  const ReportDir: string := "/root/" + ReportDirName
}
