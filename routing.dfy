/** How the browser's requests meet the server: the routes the server
    registers, the queries the browser builds for them, and the shared
    session's state as the readiness every handler checks first. */
module Routing {
  import opened Wrappers
  import opened Strings
  import opened UriEncoding
  import NameChecks
  import SftpSupervisor
  import Listing
  import RemoteExec
  import opened FileApi
  import PackageDownload

  datatype Verb = Get | Post | Delete

  /** The handlers the server registers, and `NoRoute` for a request that
      falls through them to the static files of `public/`, which answer 404
      for an API path. */
  datatype Route =
    | ListFiles | DownloadFile | UploadFile | RenameEntry | DeleteEntry
    | PackageDirectory | ReadContent | SaveContent | NoRoute

  /** What Express compares with a registered path: its routes ignore case
      (a regular expression's `i` flag without `u`, which folds only the
      ASCII letters) and accept one trailing `/`. */
  function RoutePath(path: string): string {
    var l := Lower(path);
    if |l| > 0 && l[|l| - 1] == '/' then l[..|l| - 1] else l
  }

  function RouteOf(verb: Verb, path: string): Route {
    var path := RoutePath(path);
    match verb
    case Get =>
      if path == "/api/files" then ListFiles
      else if path == "/api/download" then DownloadFile
      else if path == "/api/package-download" then PackageDirectory
      else if path == "/api/file-content" then ReadContent
      else NoRoute
    case Post =>
      if path == "/api/upload" then UploadFile
      else if path == "/api/rename" then RenameEntry
      else if path == "/api/save-file" then SaveContent
      else NoRoute
    case Delete =>
      if path == "/api/delete" then DeleteEntry
      else NoRoute
  }

  /** Each request the browser makes reaches its handler; the new-folder
      and new-file requests reach none. */
  lemma ClientRequestsRouted(kind: NameChecks.CreateKind)
    ensures RouteOf(Get, "/api/files") == ListFiles
    ensures RouteOf(Get, "/api/download") == DownloadFile
    ensures RouteOf(Get, "/api/package-download") == PackageDirectory
    ensures RouteOf(Get, "/api/file-content") == ReadContent
    ensures RouteOf(Post, "/api/upload") == UploadFile
    ensures RouteOf(Post, "/api/rename") == RenameEntry
    ensures RouteOf(Post, "/api/save-file") == SaveContent
    ensures RouteOf(Delete, "/api/delete") == DeleteEntry
    ensures RouteOf(Post, NameChecks.CreateEndpoint(kind)) == NoRoute
  {
    GetRequestsRouted();
    PostRequestsRouted();
    DeleteRequestRouted("/api/delete");
    CreateRequestUnrouted(NameChecks.CreateEndpoint(kind));
  }

  lemma DeleteRequestRouted(t: string)
    requires t == "/api/delete"
    ensures RouteOf(Delete, t) == DeleteEntry
  {
    Unfolded(t);
  }

  lemma CreateRequestUnrouted(t: string)
    requires t == "/api/mkdir" || t == "/api/touch"
    ensures RouteOf(Post, t) == NoRoute
  {
    Unfolded(t);
  }

  lemma GetRequestsRouted()
    ensures RouteOf(Get, "/api/files") == ListFiles
    ensures RouteOf(Get, "/api/download") == DownloadFile
    ensures RouteOf(Get, "/api/package-download") == PackageDirectory
    ensures RouteOf(Get, "/api/file-content") == ReadContent
  {
    Unfolded("/api/files");
    Unfolded("/api/download");
    Unfolded("/api/package-download");
    Unfolded("/api/file-content");
  }

  lemma PostRequestsRouted()
    ensures RouteOf(Post, "/api/upload") == UploadFile
    ensures RouteOf(Post, "/api/rename") == RenameEntry
    ensures RouteOf(Post, "/api/save-file") == SaveContent
  {
    Unfolded("/api/upload");
    Unfolded("/api/rename");
    Unfolded("/api/save-file");
  }

  /** A lower-case path without a trailing `/` is compared as it is. */
  lemma Unfolded(t: string)
    requires forall i :: 0 <= i < |t| ==> t[i] == '/' || t[i] == '-' || 'a' <= t[i] <= 'z'
    requires |t| > 0 && t[|t| - 1] != '/'
    ensures RoutePath(t) == t
  {
    assert Lower(t) == t;
  }

  /** The only requests answered by a handler are the eight registered
      ones, up to case and one trailing `/`. */
  lemma RoutedOnlyRegistered(verb: Verb, path: string)
    requires RouteOf(verb, path) != NoRoute
    ensures verb == Get ==> RoutePath(path) in {"/api/files", "/api/download", "/api/package-download", "/api/file-content"}
    ensures verb == Post ==> RoutePath(path) in {"/api/upload", "/api/rename", "/api/save-file"}
    ensures verb == Delete ==> RoutePath(path) == "/api/delete"
  {
  }

  /** A registered path `r` (lower case, without a trailing `/`) is matched
      by exactly the paths that fold to `r` or to `r` + `/`. */
  lemma RoutePathMatches(path: string, r: string)
    requires Lower(r) == r && (|r| == 0 || r[|r| - 1] != '/')
    ensures RoutePath(path) == r <==> Lower(path) == r || Lower(path) == r + "/"
  {
    var l := Lower(path);
    if Lower(path) == r + "/" {
      assert l[..|l| - 1] == r;
    }
  }

  /** The folding at work: `/API/Files` and `/api/files/` list a directory,
      `/api/files//` reaches no handler. */
  lemma CaseAndTrailingSlash()
    ensures RouteOf(Get, "/API/Files") == ListFiles
    ensures RouteOf(Get, "/api/files/") == ListFiles
    ensures RouteOf(Get, "/api/files//") == NoRoute
  {
    UpperFiles("/API/Files");
    SlashedFiles("/api/files/");
    DoubleSlashedFiles("/api/files//");
  }

  lemma UpperFiles(t: string)
    requires t == "/API/Files"
    ensures RoutePath(t) == "/api/files"
  {
    assert Lower(t) == "/api/files";
  }

  lemma SlashedFiles(t: string)
    requires t == "/api/files/"
    ensures RoutePath(t) == "/api/files"
  {
    assert Lower(t) == t;
    assert t[..|t| - 1] == "/api/files";
  }

  lemma DoubleSlashedFiles(t: string)
    requires t == "/api/files//"
    ensures RoutePath(t) == "/api/files/"
  {
    assert Lower(t) == t;
    assert t[..|t| - 1] == "/api/files/";
  }

  /** `?path=` + the encoded path, as the listing, download and editor
      requests write it: the server's `path` parameter holds the encoded
      path, which decodes to the path's UTF-8 bytes. */
  lemma PathQueryCarriesPath(p: string)
    ensures QueryValue("path=" + Encode(p), "path") == Some(Encode(p))
    ensures PercentDecode(Encode(p)) == Utf8String(p)
  {
    var q := "path=" + Encode(p);
    EncodedAlphabet(p);
    assert !Unreserved('&');
    assert '&' !in q;
    var ps := SplitNoSep(q, '&');
    assert "path" + "=" + Encode(p) == q;
    ParamParts("path", Encode(p));
    DecodeEncode(p);
  }

  /** The browser's archive request for a non-empty selection is refused
      with 400 and runs no remote command: the server reads `path`, the
      browser sends only `paths`. */
  lemma PackageRequestRefused(paths: seq<string>, stamp: string, token: string,
                              tarOutcome: Result<string, RemoteExec.CommandError>,
                              stat: Option<Attrs>, events: seq<PackageDownload.TransferEvent>)
    requires |paths| > 0
    ensures var t := PackageDownload.PackageHandled(true, QueryValue(PackageQuery(paths), "path"),
                                                    stamp, token, tarOutcome, stat, events);
      t.commands == [] && t.reply == Some(Reply(400, TextNote(DirectoryPathRequired)))
  {
    PackageQueryHasNoPath(paths);
    PackageDownload.Refusals(QueryValue(PackageQuery(paths), "path"), stamp, token, tarOutcome, stat, events);
  }

  /** Whether the handlers find a session: the global `sftp` is set. */
  predicate Ready(t: seq<SftpSupervisor.Event>) {
    SftpSupervisor.SftpAfter(t).Some?
  }

  /** After an `end`, `error` or `close`, until the next session arrives,
      every handler answers 503 and touches nothing on the remote host. */
  lemma ClearedSessionRefusesAll(t: seq<SftpSupervisor.Event>,
                                 query: Option<string>, listing: Result<seq<Listing.DirEntry>, string>,
                                 stat: Option<Attrs>, fate: StreamFate,
                                 file: Option<Uploaded>, bodyPath: Option<string>,
                                 join: (string, string) -> string, wevents: seq<WriteEvent>,
                                 a: Option<string>, b: Option<string>, outcome: Option<SftpError>,
                                 events: seq<ReadEvent>, stamp: string, token: string,
                                 tarOutcome: Result<string, RemoteExec.CommandError>,
                                 transfer: seq<PackageDownload.TransferEvent>)
    requires |t| > 0 && SftpSupervisor.Clears(t[|t| - 1])
    ensures !Ready(t)
    ensures FilesHandled(Ready(t), query, listing).reply.status == 503
    ensures DownloadHandled(Ready(t), query, stat, fate).reply.status == 503
    ensures UploadHandled(Ready(t), file, bodyPath, join, wevents).reply == Some(Reply(503, JsonNote(SftpUnavailable)))
    ensures RenameHandled(Ready(t), a, b, outcome).reply.status == 503
    ensures DeleteHandled(Ready(t), a, b, outcome).reply.status == 503
    ensures ContentHandled(Ready(t), query, events).1 == Some(Reply(503, JsonNote(SftpUnavailable)))
    ensures SaveHandled(Ready(t), a, b, wevents).reply == Some(Reply(503, JsonNote(SftpUnavailable)))
    ensures var p := PackageDownload.PackageHandled(Ready(t), query, stamp, token, tarOutcome, stat, transfer);
      p.commands == [] && p.reply == Some(Reply(503, TextNote(SshUnavailable)))
  {
    assert SftpSupervisor.SftpAfter(t) == None;
    UnavailableEverywhere(query, listing, stat, fate, file, bodyPath, join, wevents, a, b, outcome, events);
    PackageDownload.Refusals(query, stamp, token, tarOutcome, stat, transfer);
  }
}
