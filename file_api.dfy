/** The server's file endpoints: what each handler checks, which SFTP call it
    then issues, and which status and body it answers with for each outcome
    of that call. The SFTP calls and the streams are not modelled; their
    outcomes are inputs. */
module FileApi {
  import opened Wrappers
  import opened Strings
  import opened PathNormalizer
  import opened PosixPath
  import opened Listing
  import opened UriEncoding

  /** What a reply says: the handlers' fixed messages, and those that carry
      a path or the SFTP error text. */
  datatype Note =
    | SftpUnavailable
    | ListFailed(reason: string, path: string)
    | PathRequired
    | FileNotFound
    | CannotDownloadDirectory
    | TransferFailed
    | NoFileUploaded
    | UploadedTo(target: string)
    | UploadFailed(reason: string)
    | PathsRequired
    | RenamedTo(target: string)
    | RenameFailed(reason: string)
    | PathAndTypeRequired
    | DirectoryNotEmpty
    | Deleted(target: string)
    | DeleteFailed(reason: string)
    | ReadFailed(reason: string)
    | PathAndContentRequired
    | SavedTo(target: string)
    | SaveFailed(reason: string)
    | SshUnavailable
    | DirectoryPathRequired
    | ArchiveFailed
    | ArchiveStatFailed
    | ArchiveTransferFailed

  /** `res.json(...)`, `res.send(text)`, the listing, a streamed file, the
      text of a file, and the framework's own page for a thrown exception. */
  datatype Body =
    | JsonNote(note: Note)
    | TextNote(note: Note)
    | ListingBody(path: string, files: seq<FileInfo>)
    | FileStream(filename: string, size: nat, source: string, complete: bool)
    | PlainText(content: string)
    | ErrorPage

  datatype Reply = Reply(status: nat, body: Body)

  /** The SFTP operation a handler issues. */
  datatype SftpCall =
    | ReadDir(path: string)
    | StatPath(path: string)
    | CreateWrite(path: string)
    | RenamePath(from: string, to: string)
    | Rmdir(path: string)
    | Unlink(path: string)
    | ReadFile(path: string)
    | WriteContent(path: string, content: string)

  /** A handler's answer and the SFTP call it made, if any; or a throw in an
      SFTP callback, which nothing catches: no reply is sent and the server
      process ends. */
  datatype Handled = Handled(reply: Reply, call: Option<SftpCall>) | Crashed(call: Option<SftpCall>)

  /** An SFTP error: its status code and message. */
  datatype SftpError = SftpError(code: int, message: string)

  /** A request value that JavaScript treats as true: present and not empty. */
  predicate Given(v: Option<string>) {
    v.Some? && v.value != ""
  }

  const Unavailable := Handled(Reply(503, JsonNote(SftpUnavailable)), None)

  // ---- GET /api/files ----

  /** The directory listed: the `path` parameter, or `.` when it is missing or empty. */
  function ListedPath(query: Option<string>): string {
    if Given(query) then query.value else "."
  }

  /** `/api/files`; `outcome` is what `readdir` of the listed path gave. */
  function FilesHandled(ready: bool, query: Option<string>, outcome: Result<seq<DirEntry>, string>): Handled {
    if !ready then Unavailable
    else
      var p := ListedPath(query);
      var call := Some(ReadDir(p));
      match outcome
      case Failure(msg) => Handled(Reply(400, JsonNote(ListFailed(msg, p))), call)
      case Success(list) => Handled(Reply(200, ListingBody(p, Files(list))), call)
  }

  /** A successful listing answers 200 for the directory it read, with every
      entry once, directories first and names ascending within a type; a
      failed one answers 400 with the error and the path. */
  lemma FilesAnswer(query: Option<string>, outcome: Result<seq<DirEntry>, string>)
    ensures var h := FilesHandled(true, query, outcome);
      && h.call == Some(ReadDir(ListedPath(query)))
      && (h.reply.status == 200 <==> outcome.Success?)
      && (h.reply.status == 400 <==> outcome.Failure?)
      && (outcome.Failure? ==> h.reply.body == JsonNote(ListFailed(outcome.error, ListedPath(query))))
    ensures outcome.Success? ==>
      var files := FilesHandled(true, query, outcome).reply.body.files;
      && FilesHandled(true, query, outcome).reply.body.path == ListedPath(query)
      && |files| == |outcome.value|
      && (forall e :: e in outcome.value ==> ToInfo(e) in files)
      && (forall i, j :: 0 <= i < j < |files| && files[i].kind == File ==> files[j].kind == File)
      && (forall i, j :: 0 <= i < j < |files| && files[i].kind == files[j].kind ==> LexLe(files[i].name, files[j].name))
  {
    if outcome.Success? {
      FilesPermutation(outcome.value);
      DirsBeforeFiles(outcome.value);
      NamesAscendWithinType(outcome.value);
    }
  }

  /** A missing or empty `path` lists the SFTP server's working directory. */
  lemma EmptyPathListsDot(outcome: Result<seq<DirEntry>, string>)
    ensures FilesHandled(true, None, outcome).call == Some(ReadDir("."))
    ensures FilesHandled(true, Some(""), outcome) == FilesHandled(true, None, outcome)
  {
  }

  // ---- GET /api/download ----

  /** What `stat` reports. */
  datatype Attrs = Attrs(isDir: bool, size: nat)

  /** How the piped read stream ended: completely, with an error before any
      byte reached the response (headers not yet sent), or with an error
      after. */
  datatype StreamFate = Streamed | FailedBeforeData | FailedAfterData

  /** A character `res.setHeader` accepts in a header value: a tab, printable
      ASCII, or U+0080 to U+00FF. Any other makes it throw `ERR_INVALID_CHAR`. */
  predicate HeaderChar(c: char) {
    c == '\t' || (' ' <= c <= '~') || (0x80 <= c as int <= 0xFF)
  }

  predicate HeaderSafe(t: string) {
    forall i :: 0 <= i < |t| ==> HeaderChar(t[i])
  }

  lemma SafeConcat(a: string, b: string)
    ensures HeaderSafe(a + b) <==> HeaderSafe(a) && HeaderSafe(b)
  {
    if HeaderSafe(a + b) {
      forall i | 0 <= i < |a| ensures HeaderChar(a[i]) { assert (a + b)[i] == a[i]; }
      forall i | 0 <= i < |b| ensures HeaderChar(b[i]) { assert (a + b)[|a| + i] == b[i]; }
    }
  }

  /** The `Content-Disposition` value for a file saved as `name`. */
  function Attachment(name: string): string {
    "attachment; filename=\"" + name + "\""
  }

  /** The fixed parts of the header are accepted, so setting it throws
      exactly when the name holds a character `setHeader` refuses. */
  lemma AttachmentSafe(name: string)
    ensures HeaderSafe(Attachment(name)) <==> HeaderSafe(name)
  {
    var pre := "attachment; filename=\"";
    var q := "\"";
    assert HeaderSafe(pre) by {
      forall i | 0 <= i < |pre| ensures HeaderChar(pre[i]) { assert ' ' <= pre[i] <= '~'; }
    }
    assert HeaderChar(q[0]);
    SafeConcat(pre, name);
    SafeConcat(pre + name, q);
  }

  /** `/api/download`; `stat` is what `stat` of the path gave. The
      attachment header is set before the stream is opened. */
  function DownloadHandled(ready: bool, query: Option<string>, stat: Option<Attrs>, fate: StreamFate): Handled {
    if !ready then Handled(Reply(503, TextNote(SftpUnavailable)), None)
    else if !Given(query) then Handled(Reply(400, TextNote(PathRequired)), None)
    else
      var p := query.value;
      var call := Some(StatPath(p));
      match stat
      case None => Handled(Reply(404, TextNote(FileNotFound)), call)
      case Some(a) =>
        if a.isDir then Handled(Reply(400, TextNote(CannotDownloadDirectory)), call)
        else if !HeaderSafe(Attachment(Basename(p))) then Crashed(call)
        else if fate == FailedBeforeData then Handled(Reply(500, TextNote(TransferFailed)), call)
        else Handled(Reply(200, FileStream(Basename(p), a.size, p, fate == Streamed)), call)
  }

  /** The download statuses: 404 exactly when `stat` fails, 400 for a
      missing path or a directory, no reply at all for a file whose base
      name the header refuses, 500 only for a stream error before the
      headers went out; otherwise the file is sent under its base name with
      its size, complete unless the stream failed midway. */
  lemma DownloadAnswer(query: Option<string>, stat: Option<Attrs>, fate: StreamFate)
    ensures var h := DownloadHandled(true, query, stat, fate);
      && (h.Crashed? <==> Given(query) && stat.Some? && !stat.value.isDir && !HeaderSafe(Basename(query.value)))
      && (h.Crashed? ==> h.call == Some(StatPath(query.value)))
    ensures var h := DownloadHandled(true, query, stat, fate);
      h.Handled? ==>
        && (h.reply.status == 404 <==> Given(query) && stat.None?)
        && (h.reply.status == 400 <==> !Given(query) || (stat.Some? && stat.value.isDir))
        && (h.reply.status == 500 <==> Given(query) && stat.Some? && !stat.value.isDir && fate == FailedBeforeData)
        && (h.reply.status == 200 <==> Given(query) && stat.Some? && !stat.value.isDir && fate != FailedBeforeData)
    ensures var h := DownloadHandled(true, query, stat, fate);
      h.Handled? && h.reply.status == 200 ==>
        && h.reply.body.FileStream?
        && h.reply.body.filename == Basename(query.value)
        && '/' !in h.reply.body.filename
        && h.reply.body.size == stat.value.size
        && (h.reply.body.complete <==> fate == Streamed)
  {
    if Given(query) {
      AttachmentSafe(Basename(query.value));
    }
  }

  /** For the normalised absolute paths the browser sends, the attachment
      name is the path's last segment, and a last segment the header
      refuses ends the server without a reply. */
  lemma DownloadNameIsLastSegment(p: string, a: Attrs, fate: StreamFate)
    requires IsNormal(p) && IsAbsolute(p) && p != "/" && !a.isDir && fate != FailedBeforeData
    ensures var h := DownloadHandled(true, Some(p), Some(a), fate);
      && (h.Crashed? <==> !HeaderSafe(Last(Segments(p))))
      && (h.Handled? ==> h.reply.status == 200 && h.reply.body.filename == Last(Segments(p)))
  {
    NormalPathParts(p);
    AttachmentSafe(Basename(p));
  }

  /** `/root/报告.txt`: the name's first character is U+62A5, which no
      header may carry, so the request gets no reply. */
  lemma NonLatinNameCrashes(a: Attrs, fate: StreamFate)
    requires !a.isDir
    ensures DownloadHandled(true, Some(ReportPath), Some(a), fate).Crashed?
  {
    ReportPathParts();
    AttachmentSafe(ReportName);
    assert !HeaderChar(ReportName[0]);
  }

  const ReportName: string := "\U{62A5}\U{544A}.txt"
  const ReportPath: string := "/root/" + ReportName

  lemma ReportPathParts()
    ensures Basename(ReportPath) == ReportName
  {
    var x := ReportName;
    assert forall i :: 0 <= i < |x| ==> x[i] != '/';
    LastComponent("/root", x, ReportPath);
  }

  /** The header of section 4.3 of RFC 6266, `filename*=UTF-8''` followed by
      the percent-encoded name: every name gives a value `setHeader`
      accepts, and the value carries the name's UTF-8 bytes. */
  function CorrectedAttachment(name: string): string {
    "attachment; filename*=UTF-8''" + Encode(name)
  }

  lemma CorrectedAttachmentSafe(name: string)
    ensures HeaderSafe(CorrectedAttachment(name))
    ensures PercentDecode(Encode(name)) == Utf8String(name)
  {
    var pre := "attachment; filename*=UTF-8''";
    assert HeaderSafe(pre) by {
      forall i | 0 <= i < |pre| ensures HeaderChar(pre[i]) { assert ' ' <= pre[i] <= '~'; }
    }
    EncodedAlphabet(name);
    var e := Encode(name);
    forall i | 0 <= i < |e| ensures HeaderChar(e[i]) {
      assert Unreserved(e[i]) || e[i] == '%';
    }
    SafeConcat(pre, e);
    DecodeEncode(name);
  }

  // ---- POST /api/upload ----

  /** The file multer stored: where it put it and the name the browser gave. */
  datatype Uploaded = Uploaded(localPath: string, originalName: string)

  /** The events of an SFTP write stream, in order: `close`, and `error`,
      after which the stream destroys itself and emits `close` as well. */
  datatype WriteEvent = WriteClose | WriteError(reason: string)

  /** Whose write stream it is: the upload's, whose listeners also remove
      multer's temporary file `local`, or the editor's save. */
  datatype Writer = UploadWriter(local: string, remote: string) | SaveWriter(path: string)

  /** What a writing handler has done: the reply sent, if any, the SFTP
      call, the temporary files unlinked, and whether a listener threw. */
  datatype WriteEffect = WriteEffect(reply: Option<Reply>, call: Option<SftpCall>, unlinked: seq<string>, thrown: bool)

  /** The reply a listener sends for an event. */
  function ListenerReply(w: Writer, e: WriteEvent): Reply {
    match w
    case UploadWriter(_, remote) =>
      (match e
       case WriteClose => Reply(200, JsonNote(UploadedTo(remote)))
       case WriteError(m) => Reply(500, JsonNote(UploadFailed(m))))
    case SaveWriter(path) =>
      (match e
       case WriteClose => Reply(200, JsonNote(SavedTo(path)))
       case WriteError(m) => Reply(500, JsonNote(SaveFailed(m))))
  }

  /** The files a listener unlinks before it replies. */
  function Cleanup(w: Writer): seq<string> {
    match w
    case UploadWriter(local, _) => [local]
    case SaveWriter(_) => []
  }

  /** The two listeners run over `events`: each unlinks first, then
      replies. A second reply finds the headers sent and throws; nothing
      catches a throw in a stream listener, so the server process ends and
      no later event is handled. */
  function Listen(w: Writer, events: seq<WriteEvent>, st: WriteEffect): WriteEffect
    decreases |events|
  {
    if |events| == 0 || st.thrown then st
    else
      var cleaned := st.(unlinked := st.unlinked + Cleanup(w));
      var next := if cleaned.reply.Some? then cleaned.(thrown := true)
                  else cleaned.(reply := Some(ListenerReply(w, events[0])));
      Listen(w, events[1..], next)
  }

  /** From a fresh stream the first event decides the reply and a second
      event throws; each event handled has run its cleanup. */
  lemma ListenFromStart(w: Writer, events: seq<WriteEvent>, call: Option<SftpCall>)
    ensures var r := Listen(w, events, WriteEffect(None, call, [], false));
      && r.call == call
      && (r.reply.Some? <==> |events| > 0)
      && (|events| > 0 ==> r.reply == Some(ListenerReply(w, events[0])))
      && (r.thrown <==> |events| > 1)
      && r.unlinked == (if |events| == 0 then [] else if |events| == 1 then Cleanup(w) else Cleanup(w) + Cleanup(w))
  {
    if |events| > 0 {
      var s1 := WriteEffect(Some(ListenerReply(w, events[0])), call, [] + Cleanup(w), false);
      assert Listen(w, events, WriteEffect(None, call, [], false)) == Listen(w, events[1..], s1);
      if |events| > 1 {
        var s2 := s1.(unlinked := s1.unlinked + Cleanup(w), thrown := true);
        assert Listen(w, events[1..], s1) == Listen(w, events[2..], s2);
        assert [] + Cleanup(w) == Cleanup(w);
      } else {
        assert events[1..] == [];
      }
    }
  }

  /** `originalFilename.split(/[\\\/]/).pop()`: what follows the last slash
      or backslash. */
  function CleanFilename(original: string): string {
    Last(Split(ReplaceBackslashes(original), '/'))
  }

  /** The cleaned name is the part of the original after its last separator
      of either kind: it holds neither, and it is all of the original
      exactly when the original held neither. */
  lemma CleanFilenameSuffix(original: string)
    ensures var c := CleanFilename(original);
      && '/' !in c && '\\' !in c
      && |c| <= |original| && c == original[|original| - |c|..]
      && (c == original <==> '/' !in original && '\\' !in original)
  {
    var t := ReplaceBackslashes(original);
    var c := CleanFilename(original);
    LastPieceIsSuffix(t, '/');
    var k := |t| - |c|;
    assert c == t[k..];
    forall i | k <= i < |original| ensures original[i] == t[i] {
      assert t[i] == c[i - k];
    }
    assert c == original[k..];
    if '/' !in original && '\\' !in original {
      assert t == original;
    }
    if c == original {
      assert k == 0;
      assert '/' !in t;
      forall i | 0 <= i < |original| ensures original[i] != '/' && original[i] != '\\' {
        assert t[i] == c[i];
      }
    }
  }

  /** `/api/upload`. `bodyPath` is the form's `path` field; `join` stands
      for `path.posix.join`, which throws on a missing first argument, a
      throw Express answers with its error page. `events` are the write
      stream's. */
  function UploadHandled(ready: bool, file: Option<Uploaded>, bodyPath: Option<string>,
                         join: (string, string) -> string, events: seq<WriteEvent>): WriteEffect
  {
    if !ready then WriteEffect(Some(Reply(503, JsonNote(SftpUnavailable))), None, [], false)
    else if file.None? then WriteEffect(Some(Reply(400, JsonNote(NoFileUploaded))), None, [], false)
    else if bodyPath.None? then WriteEffect(Some(Reply(500, ErrorPage)), None, [], false)
    else
      var remote := join(bodyPath.value, CleanFilename(file.value.originalName));
      Listen(UploadWriter(file.value.localPath, remote), events, WriteEffect(None, Some(CreateWrite(remote)), [], false))
  }

  /** Once the write stream exists each of its events removes the temporary
      file, so an error and the close after it remove it twice; on every
      earlier exit it stays on disk, also when a file was received but SFTP
      was down. */
  lemma UploadTempFile(ready: bool, file: Option<Uploaded>, bodyPath: Option<string>,
                       join: (string, string) -> string, events: seq<WriteEvent>)
    ensures var u := UploadHandled(ready, file, bodyPath, join, events);
      && (u.unlinked != [] <==> ready && file.Some? && bodyPath.Some? && events != [])
      && (u.unlinked != [] ==> u.unlinked == (if |events| == 1 then [file.value.localPath]
                                               else [file.value.localPath, file.value.localPath]))
      && (u.call.None? ==> u.unlinked == [])
    ensures !ready && file.Some? ==> UploadHandled(ready, file, bodyPath, join, events).unlinked == []
  {
    if ready && file.Some? && bodyPath.Some? {
      var remote := join(bodyPath.value, CleanFilename(file.value.originalName));
      ListenFromStart(UploadWriter(file.value.localPath, remote), events, Some(CreateWrite(remote)));
    }
  }

  /** The file is written to the form's directory joined with a name free of
      separators; the first write event decides the reply, 200 for `close`
      and 500 for `error`, and a second event throws. */
  lemma UploadTarget(file: Uploaded, dir: string, join: (string, string) -> string, events: seq<WriteEvent>)
    ensures var u := UploadHandled(true, Some(file), Some(dir), join, events);
      var name := CleanFilename(file.originalName);
      && u.call == Some(CreateWrite(join(dir, name)))
      && '/' !in name && '\\' !in name
      && (u.reply.Some? <==> events != [])
      && (events != [] ==> (u.reply.value.status == 200 <==> events[0] == WriteClose))
      && (events != [] ==> (u.reply.value.status == 500 <==> events[0].WriteError?))
      && (u.thrown <==> |events| > 1)
  {
    CleanFilenameSuffix(file.originalName);
    var remote := join(dir, CleanFilename(file.originalName));
    ListenFromStart(UploadWriter(file.localPath, remote), events, Some(CreateWrite(remote)));
  }

  /** A failed write followed by the stream's own `close`: 500, the
      temporary file unlinked twice, and the close listener's second reply
      throws. */
  lemma UploadErrorThenClose(file: Uploaded, dir: string, join: (string, string) -> string, m: string)
    ensures var u := UploadHandled(true, Some(file), Some(dir), join, [WriteError(m), WriteClose]);
      && u.reply == Some(Reply(500, JsonNote(UploadFailed(m))))
      && u.unlinked == [file.localPath, file.localPath]
      && u.thrown
  {
    var remote := join(dir, CleanFilename(file.originalName));
    ListenFromStart(UploadWriter(file.localPath, remote), [WriteError(m), WriteClose], Some(CreateWrite(remote)));
  }

  // ---- POST /api/rename ----

  /** `/api/rename`; `outcome` is the error `rename` gave, if any. */
  function RenameHandled(ready: bool, oldPath: Option<string>, newPath: Option<string>, outcome: Option<SftpError>): Handled {
    if !ready then Unavailable
    else if !Given(oldPath) || !Given(newPath) then Handled(Reply(400, JsonNote(PathsRequired)), None)
    else
      var call := Some(RenamePath(oldPath.value, newPath.value));
      match outcome
      case Some(e) => Handled(Reply(500, JsonNote(RenameFailed(e.message))), call)
      case None => Handled(Reply(200, JsonNote(RenamedTo(newPath.value))), call)
  }

  lemma RenameAnswer(oldPath: Option<string>, newPath: Option<string>, outcome: Option<SftpError>)
    ensures var h := RenameHandled(true, oldPath, newPath, outcome);
      && (h.reply.status == 400 <==> !Given(oldPath) || !Given(newPath))
      && (h.call.Some? <==> Given(oldPath) && Given(newPath))
      && (h.call.Some? ==> h.call.value == RenamePath(oldPath.value, newPath.value))
      && (h.reply.status == 500 <==> h.call.Some? && outcome.Some?)
      && (h.reply.status == 200 <==> h.call.Some? && outcome.None?)
  {
  }

  // ---- DELETE /api/delete ----

  /** `type === 'dir' ? 'rmdir' : 'unlink'`. */
  function DeleteCall(path: string, kind: string): SftpCall {
    if kind == "dir" then Rmdir(path) else Unlink(path)
  }

  /** SFTP's status code for a failure, as a non-empty directory reports it. */
  const SftpFailure := 4

  /** `/api/delete`; `outcome` is the error of the dispatched call, if any. */
  function DeleteHandled(ready: bool, path: Option<string>, kind: Option<string>, outcome: Option<SftpError>): Handled {
    if !ready then Unavailable
    else if !Given(path) || !Given(kind) then Handled(Reply(400, JsonNote(PathAndTypeRequired)), None)
    else
      var call := Some(DeleteCall(path.value, kind.value));
      match outcome
      case Some(e) =>
        if e.code == SftpFailure && kind.value == "dir" then Handled(Reply(400, JsonNote(DirectoryNotEmpty)), call)
        else Handled(Reply(500, JsonNote(DeleteFailed(e.message))), call)
      case None => Handled(Reply(200, JsonNote(Deleted(path.value))), call)
  }

  /** `dir` removes a directory and every other type unlinks; a failed
      directory removal with code 4 is reported as "not empty" (400), every
      other failure as 500. */
  lemma DeleteAnswer(path: Option<string>, kind: Option<string>, outcome: Option<SftpError>)
    ensures var h := DeleteHandled(true, path, kind, outcome);
      && (h.call.Some? <==> Given(path) && Given(kind))
      && (h.call.Some? ==> (h.call.value.Rmdir? <==> kind.value == "dir"))
      && (h.call.Some? ==> (h.call.value.Unlink? <==> kind.value != "dir"))
      && (h.call.Some? ==> h.call.value.path == path.value)
      && (h.reply.body == JsonNote(DirectoryNotEmpty) <==>
            h.call.Some? && outcome.Some? && outcome.value.code == 4 && kind.value == "dir")
      && (h.reply.status == 400 <==>
            !Given(path) || !Given(kind) || (outcome.Some? && outcome.value.code == 4 && kind.value == "dir"))
      && (h.reply.status == 500 <==>
            h.call.Some? && outcome.Some? && !(outcome.value.code == 4 && kind.value == "dir"))
      && (h.reply.status == 200 <==> h.call.Some? && outcome.None?)
  {
  }

  /** Code 4 from unlinking a file is an ordinary failure. */
  lemma FileFailureCodeFourIs500(path: string, kind: string, message: string)
    requires path != "" && kind != "" && kind != "dir"
    ensures DeleteHandled(true, Some(path), Some(kind), Some(SftpError(4, message))).reply
         == Reply(500, JsonNote(DeleteFailed(message)))
  {
  }

  // ---- GET /api/file-content ----

  /** The events of the UTF-8 read stream, in order. */
  datatype ReadEvent = Chunk(text: string) | End | ReadError(message: string)

  /** The reply the stream's handlers give once read as far as `events`,
      with `acc` read so far: the first `end` sends the text, the first
      `error` a 500; before either there is no reply yet. */
  function ReadAnswer(events: seq<ReadEvent>, acc: string): Option<Reply>
    decreases |events|
  {
    if |events| == 0 then None
    else match events[0]
      case Chunk(t) => ReadAnswer(events[1..], acc + t)
      case End => Some(Reply(200, PlainText(acc)))
      case ReadError(m) => Some(Reply(500, JsonNote(ReadFailed(m))))
  }

  function ContentHandled(ready: bool, query: Option<string>, events: seq<ReadEvent>): (Option<SftpCall>, Option<Reply>) {
    if !ready then (None, Some(Reply(503, JsonNote(SftpUnavailable))))
    else if !Given(query) then (None, Some(Reply(400, JsonNote(PathRequired))))
    else (Some(ReadFile(query.value)), ReadAnswer(events, ""))
  }

  /** `/api/file-content` with its `fileContent += chunk` accumulator. */
  method FileContent(ready: bool, query: Option<string>, events: seq<ReadEvent>) returns (call: Option<SftpCall>, reply: Option<Reply>)
    ensures (call, reply) == ContentHandled(ready, query, events)
  {
    if !ready {
      return None, Some(Reply(503, JsonNote(SftpUnavailable)));
    }
    if !Given(query) {
      return None, Some(Reply(400, JsonNote(PathRequired)));
    }
    call := Some(ReadFile(query.value));
    var fileContent := "";
    var i := 0;
    while i < |events|
      invariant 0 <= i <= |events|
      invariant ReadAnswer(events, "") == ReadAnswer(events[i..], fileContent)
    {
      assert events[i..][1..] == events[i + 1..];
      match events[i] {
        case Chunk(t) =>
          fileContent := fileContent + t;
        case End =>
          return call, Some(Reply(200, PlainText(fileContent)));
        case ReadError(m) =>
          return call, Some(Reply(500, JsonNote(ReadFailed(m))));
      }
      i := i + 1;
    }
    reply := None;
  }

  function Chunks(texts: seq<string>): (r: seq<ReadEvent>)
    ensures |r| == |texts|
    ensures forall i :: 0 <= i < |texts| ==> r[i] == Chunk(texts[i])
  {
    seq(|texts|, i requires 0 <= i < |texts| => Chunk(texts[i]))
  }

  /** Data then `end`: the reply is the concatenation of the chunks, whatever
      follows. */
  lemma {:induction false} ContentIsChunks(texts: seq<string>, acc: string, later: seq<ReadEvent>)
    ensures ReadAnswer(Chunks(texts) + [End] + later, acc) == Some(Reply(200, PlainText(acc + Concat(texts))))
    decreases |texts|
  {
    var evs := Chunks(texts) + [End] + later;
    if |texts| == 0 {
      assert evs[0] == End;
      assert acc + Concat(texts) == acc;
    } else {
      var t := texts[0];
      assert evs[0] == Chunk(t);
      assert evs[1..] == Chunks(texts[1..]) + [End] + later;
      ContentIsChunks(texts[1..], acc + t, later);
      ConcatFront(texts);
      assert acc + t + Concat(texts[1..]) == acc + (t + Concat(texts[1..]));
    }
  }

  lemma {:induction false} ConcatFront(texts: seq<string>)
    requires |texts| > 0
    ensures Concat(texts) == texts[0] + Concat(texts[1..])
    decreases |texts|
  {
    var n := |texts|;
    if n == 1 {
      assert texts[1..] == [];
      assert texts[..0] == [];
    } else {
      var front := texts[..n - 1];
      ConcatFront(front);
      assert front[0] == texts[0];
      assert front[1..] == texts[1..][..n - 2];
      assert texts[1..][n - 2] == texts[n - 1];
      ConcatAssoc(texts[0], Concat(front[1..]), texts[n - 1]);
    }
  }

  /** Data then `error`: a 500 with the error, and the data read is dropped. */
  lemma {:induction false} ErrorDropsChunks(texts: seq<string>, acc: string, m: string, later: seq<ReadEvent>)
    ensures ReadAnswer(Chunks(texts) + [ReadError(m)] + later, acc) == Some(Reply(500, JsonNote(ReadFailed(m))))
    decreases |texts|
  {
    var evs := Chunks(texts) + [ReadError(m)] + later;
    if |texts| == 0 {
      assert evs[0] == ReadError(m);
    } else {
      assert evs[0] == Chunk(texts[0]);
      assert evs[1..] == Chunks(texts[1..]) + [ReadError(m)] + later;
      ErrorDropsChunks(texts[1..], acc + texts[0], m, later);
    }
  }

  // ---- POST /api/save-file ----

  /** `/api/save-file`; `content` is `None` when the body has no `content`
      field, and `events` are the write stream's. */
  function SaveHandled(ready: bool, path: Option<string>, content: Option<string>, events: seq<WriteEvent>): WriteEffect {
    if !ready then WriteEffect(Some(Reply(503, JsonNote(SftpUnavailable))), None, [], false)
    else if !Given(path) || content.None? then WriteEffect(Some(Reply(400, JsonNote(PathAndContentRequired))), None, [], false)
    else Listen(SaveWriter(path.value), events, WriteEffect(None, Some(WriteContent(path.value, content.value)), [], false))
  }

  /** The content is checked for presence only, so an empty file can be
      saved; an empty path cannot. Once written, the first write event
      decides the reply, 200 for `close` and 500 for `error`, and a second
      event throws. */
  lemma SaveAnswer(path: Option<string>, content: Option<string>, events: seq<WriteEvent>)
    ensures var h := SaveHandled(true, path, content, events);
      && (h.reply == Some(Reply(400, JsonNote(PathAndContentRequired))) <==> !Given(path) || content.None?)
      && (h.call.Some? <==> Given(path) && content.Some?)
      && (h.call.Some? ==> h.call.value == WriteContent(path.value, content.value))
      && (h.call.Some? ==> (h.reply.Some? <==> events != []) && (h.thrown <==> |events| > 1))
      && (h.call.Some? && events != [] ==> (h.reply.value.status == 200 <==> events[0] == WriteClose))
      && (h.call.Some? && events != [] ==> (h.reply.value.status == 500 <==> events[0].WriteError?))
      && h.unlinked == []
    ensures Given(path) ==> SaveHandled(true, path, Some(""), events).call == Some(WriteContent(path.value, ""))
  {
    if Given(path) && content.Some? {
      ListenFromStart(SaveWriter(path.value), events, Some(WriteContent(path.value, content.value)));
    }
    if Given(path) {
      ListenFromStart(SaveWriter(path.value), events, Some(WriteContent(path.value, "")));
    }
  }

  /** A failed save followed by the stream's own `close`: 500, then the
      close listener's 200 throws. */
  lemma SaveErrorThenClose(path: string, content: string, m: string)
    requires path != ""
    ensures var h := SaveHandled(true, Some(path), Some(content), [WriteError(m), WriteClose]);
      h.reply == Some(Reply(500, JsonNote(SaveFailed(m)))) && h.thrown
  {
    ListenFromStart(SaveWriter(path), [WriteError(m), WriteClose], Some(WriteContent(path, content)));
  }

  /** While no SFTP session exists every file endpoint answers 503 and calls
      nothing, whatever the request and the outcomes. */
  lemma UnavailableEverywhere(query: Option<string>, listing: Result<seq<DirEntry>, string>,
                              stat: Option<Attrs>, fate: StreamFate,
                              file: Option<Uploaded>, bodyPath: Option<string>,
                              join: (string, string) -> string, wevents: seq<WriteEvent>,
                              a: Option<string>, b: Option<string>, outcome: Option<SftpError>,
                              events: seq<ReadEvent>)
    ensures FilesHandled(false, query, listing).reply.status == 503 && FilesHandled(false, query, listing).call.None?
    ensures DownloadHandled(false, query, stat, fate).reply.status == 503 && DownloadHandled(false, query, stat, fate).call.None?
    ensures UploadHandled(false, file, bodyPath, join, wevents).reply == Some(Reply(503, JsonNote(SftpUnavailable)))
    ensures UploadHandled(false, file, bodyPath, join, wevents).call.None?
    ensures RenameHandled(false, a, b, outcome).reply.status == 503 && RenameHandled(false, a, b, outcome).call.None?
    ensures DeleteHandled(false, a, b, outcome).reply.status == 503 && DeleteHandled(false, a, b, outcome).call.None?
    ensures ContentHandled(false, query, events).0.None?
    ensures ContentHandled(false, query, events).1 == Some(Reply(503, JsonNote(SftpUnavailable)))
    ensures SaveHandled(false, a, b, wevents).reply == Some(Reply(503, JsonNote(SftpUnavailable)))
    ensures SaveHandled(false, a, b, wevents).call.None?
  {
  }
}
