# Linux-SSH-Web, modelled in Dafny

Linux-SSH-Web is a browser front end to one Linux host. An Express server
(`server.js`) keeps one shared SSH connection with an SFTP session for
the file endpoints under `/api/*`. It opens one interactive shell per
WebSocket for an xterm terminal and pushes host telemetry every two
seconds. The browser script (`public/js/client.js`) keeps a file panel:
the current directory, the check boxes and their selected set, and naming
checks for rename, new folder and new file. It is also where the endpoint
URLs are built.

This project models the logic of both files:

- the client's path normaliser, editable-file classifier, cookie lookup,
  selection state, name checks and query strings;
- the server's telemetry parsers and tick, directory-listing sort,
  WebSocket demultiplexer and shared SFTP session;
- the status decisions of every file handler, and the archive download
  with its shell commands and cleanup.

Each JavaScript behaviour is a Dafny function, or, where the source loops
or mutates, a method or class proved against such a function. Lemmas then
state what the source promises about it.

Modules, one per file:

- `Wrappers`, `Strings`: `Option`/`Result`, and JavaScript's `split`,
  `trim`, `lastIndexOf`, `toLowerCase`, `parseInt` and `join` on strings.
- `PathNormalizer`: `normalizePath` as a function `Normalize` and as the
  client's push/pop loop, `NormalizePath`. Also its normal form,
  idempotence and the parent link.
- `Editable`: `isEditable`.
- `Cookies`: `getCookie`, as a loop and as a reference lookup over jars
  built from name/value pairs.
- `NameChecks`: the rename, new-folder and new-file checks.
- `UriEncoding`: `encodeURIComponent` (UTF-8, upper-case `%HH`), percent
  decoding, and the query strings.
- `FileBrowser`: the file panel as a class. Its fields are the directory,
  the boxes, the ticks, the insertion-ordered selected set and the
  select-all flags.
- `Listing`: the `/api/files` map and sort.
- `PosixPath`: `path.posix.basename`/`dirname` for `/`-separated paths.
- `FileApi`: request checks, SFTP calls and replies of listing, download,
  upload, rename, delete, file content and save.
- `ShellWords`: how a POSIX shell splits a simple command line into words
  (section 2.2 of IEEE Std 1003.1, Shell Command Language, quoting).
- `PackageDownload`: `/api/package-download`. It covers the archive name,
  the `tar`/`rm` commands and the cleanup on every stream event.
- `RemoteExec`: `executeRemoteCommand` with its output accumulators.
- `Telemetry`: `formatUptime`, the `getRemoteStats` parsers and the rate
  rule.
- `ShellBridge`: one terminal connection as a class, with its frame
  demultiplexer and telemetry interval.
- `SftpSupervisor`: the global `sftp` as a class driven by the shared
  connection's events, with a trace-level specification.
- `Routing`: which registered route each browser request reaches.
  How the query strings meet the server. Every handler refusing while the
  session is cleared.

Where the code differs from its own comments or from its obvious reading,
the model follows the code:

- The comment on `normalizePath` (public/js/client.js:176) promises a
  leading `/`. The code adds one only for absolute input, so `a` stays
  `a` while `a/..` becomes `/` (`PathNormalizer.ExampleRelativeResults`).
- `osName` is the text between the first and second `=` of the
  `PRETTY_NAME=` line, not everything after the first `=`
  (`Telemetry.PrettyNameValue`).
- The browser's archive request sends repeated `paths=` parameters, but
  the server reads a single `path`. Every archive request from the
  browser is therefore refused with 400 (`Routing.PackageRequestRefused`).
- The new-folder and new-file buttons post to `/api/mkdir` and
  `/api/touch`, which the server does not register. Those requests fall
  through to the static files (`Routing.ClientRequestsRouted`).
- Upload answers 503 without removing multer's temporary file
  (`FileApi.UploadTempFile`).

## Model

| member | source | states |
|---|---|---|
| PathNormalizer.ReplaceBackslashes | public/js/client.js:183 | same length, no backslash left, unchanged when there was none; a leading `\` becomes the leading `/` |
| PathNormalizer.CollapseSlashes | public/js/client.js:183 | never longer; keeps the first character; unchanged when no two slashes are adjacent |
| PathNormalizer.Normalize | public/js/client.js:180-209 | never the empty string; the empty input gives `/` |
| PathNormalizer.NormalizePath | public/js/client.js:180-209 | the client's loop computes `Normalize(p)` |
| PathNormalizer.ResolveSegments | public/js/client.js:186-202 | the push/pop loop over the segments computes the reference resolution `Resolve([], parts, abs)` |
| PathNormalizer.ResolveReduced | public/js/client.js:187-202 | the resolved list has no empty, `.` or separator segment; for an absolute path no `..`; for a relative one `..` only at the front |
| PathNormalizer.ResolveIdentity | public/js/client.js:187-202 | on a list already in that shape the loop changes nothing |
| PathNormalizer.ResolveAppend | public/js/client.js:187-202 | resolving `a + b` is resolving `a`, then `b` from there |
| PathNormalizer.NormalForm | public/js/client.js:180-209 | every result is the rendering of its own segments, in reduced shape |
| PathNormalizer.NormalIsFixedPoint | public/js/client.js:180-209 | a normal path normalises to itself |
| PathNormalizer.Idempotent | public/js/client.js:180-209 | normalising twice is normalising once |
| PathNormalizer.AbsoluteInputGivesCleanPath | public/js/client.js:183-205 | input starting with `/` or `\`: the result starts with `/`, has no empty, `.` or `..` segment and no trailing `/` unless it is `/` |
| PathNormalizer.RelativeInputKeepsLeadingDotDot | public/js/client.js:188-208 | relative input: the result is `/` or a relative path whose `..` segments all come first |
| PathNormalizer.AppendSegment | public/js/client.js:332 | normalising `c + "/" + name` for a normal `c` is one more loop step on `c`'s segments |
| PathNormalizer.ParentDropsLastSegment | public/js/client.js:317 | the parent link of a normal path other than `/` drops exactly its last segment, when the path is absolute or its last segment is not `..` |
| PathNormalizer.ExampleRootParent | public/js/client.js:188-194 | `/..` gives `/` |
| PathNormalizer.ExampleDotDotCancels | public/js/client.js:188-191 | `/a/b/../c` gives `/a/c` |
| PathNormalizer.ExampleEmptyAndDot | public/js/client.js:183-205 | `/a//b/./c/` gives `/a/b/c` |
| PathNormalizer.ExampleRelativeDotDotStays | public/js/client.js:195-198 | `../../a` stays `../../a` |
| PathNormalizer.ExampleRelativeResults | public/js/client.js:205-208 | `a/..` gives `/` and `a` gives `a`: relative results do not start with `/` |
| PathNormalizer.SegmentsIgnoreTrailingSlash | public/js/client.js:184 | a trailing `/` adds no segment |
| Editable.Characterisation | public/js/client.js:289-308 | editable iff the lower-cased name ends in a listed extension shorter than the name, or has no dot past its first character and is a listed plain name |
| Editable.CaseInsensitive | public/js/client.js:299 | the answer for a name and for its lower-cased form agree |
| Editable.LastDotPastStart | public/js/client.js:301-302 | the last dot lies past the first character exactly when a dot occurs after the first character |
| Editable.HiddenFilesLookedUpWhole | public/js/client.js:302-306 | a name whose only dot is its first character is looked up whole, and is never editable |
| Editable.PlainNameEditable | public/js/client.js:297-306 | a name that lower-cases to a dot-free listed plain name is editable |
| Editable.SuffixEditable | public/js/client.js:301-304 | a lower-case name ending in any listed extension (from every extension group) after its first character is editable |
| Editable.Examples | public/js/client.js:289-308 | `Dockerfile` and `prod.env` are editable; `.bashrc` and `.env` are not |
| Editable.DottedPlainNamesUnreached | public/js/client.js:297-304 | `nginx.conf` and `apache.conf` are decided by their `.conf` extension, never by the plain-name list |
| Editable.ExtensionsShape | public/js/client.js:290-295 | every listed extension is a dot followed by dot-free text |
| Cookies.DropSpaces | public/js/client.js:238 | a suffix of the entry that does not start with a space; unchanged when the entry has none |
| Cookies.GetCookie | public/js/client.js:233-242 | the client's loop computes the reference lookup `CookieValue` |
| Cookies.FirstMatchFound | public/js/client.js:236-240 | a found value comes from the first entry that, without its leading spaces, is `name=` followed by that value; no earlier entry names the cookie |
| Cookies.FirstMatchNone | public/js/client.js:236-241 | nothing is found exactly when no entry names the cookie |
| Cookies.EntryNames | public/js/client.js:239 | an entry `k=v` starts with `name=` exactly when `k` is `name`, for `=`-free names |
| Cookies.LookupInJar | public/js/client.js:233-242 | in a cookie string `k1=v1; k2=v2; …` of well-formed pairs, the empty string included, the lookup gives the first pair's value for the name, or nothing |
| Cookies.SavedPathReadBack | public/js/client.js:810-811 | a saved directory is read back unchanged |
| NameChecks.CleanNameIffNoSeparator | public/js/client.js:521-522 | the split/pop result equals the typed name exactly when it holds neither `/` nor `\` |
| NameChecks.RenameSentIff | public/js/client.js:512-531 | a rename is sent exactly when an entry is selected and the new name is non-blank, differs from the old one and has no separator; it renames to `normalizePath(currentPath + '/' + name)`; a separator gives the error |
| NameChecks.CreateSentIff | public/js/client.js:694-710 | a folder or file creation is sent exactly when the name is non-blank and has no separator, for `normalizePath(currentPath + '/' + name)` |
| NameChecks.SameSeparatorRule | public/js/client.js:701 | rename and creation accept the same names past the emptiness checks |
| NameChecks.AcceptedNameIsChild | public/js/client.js:706 | an accepted name other than `.` and `..` gives the child of the normalised current directory |
| NameChecks.DotDotTargetsParent | public/js/client.js:518-528 | the checks let `..` through: renaming or creating `..` targets the parent of the current directory |
| NameChecks.DotDotRequests | public/js/client.js:528 | for `..` both requests target `normalizePath(currentPath + '/..')` |
| UriEncoding.Utf8 | public/js/client.js:270 | one to four bytes per character; ASCII is its own byte |
| UriEncoding.EncodedAlphabet | public/js/client.js:270 | an encoded string holds only unreserved characters and `%`, so never `&` or `=` |
| UriEncoding.EncodeUnreserved | public/js/client.js:270 | a string of unreserved characters is its own encoding |
| UriEncoding.DecodeEncode | public/js/client.js:270 | decoding the encoding gives back the UTF-8 bytes of the original |
| UriEncoding.PackageParams | public/js/client.js:456 | one `paths=` plus the encoded path per selected path, in order |
| UriEncoding.PackageQueryParams | public/js/client.js:456 | the archive query splits on `&` back into exactly those parameters, each with key `paths` and a value that decodes to its path |
| UriEncoding.PackageQueryHasNoPath | public/js/client.js:456 | the archive query has no `path` parameter |
| FileBrowser.SetAdd | public/js/client.js:350 | `Set.add`: membership gains the element, which goes last if new; stays duplicate-free |
| FileBrowser.SetDelete | public/js/client.js:353 | `Set.delete`: membership loses the element; stays duplicate-free |
| FileBrowser.SelectAllStates | public/js/client.js:360-361 | with `k <= n` ticks: select-all iff `n > 0` and `k == n`, indeterminate iff `0 < k < n`, never both |
| FileBrowser.ChildPaths | public/js/client.js:332 | each entry's path is the normalised child of the directory |
| FileBrowser.ChildPathsDistinct | public/js/client.js:332 | distinct separator-free names in a normal directory give distinct paths, so one box per path |
| FileBrowser.Browser.constructor | public/js/client.js:811-813 | the directory is the saved one normalised, or `/root`; nothing selected, button disabled |
| FileBrowser.Browser.UpdateDownloadButton | public/js/client.js:245-248 | the button is disabled iff the set is empty and shows its size; nothing else changes |
| FileBrowser.Browser.ClearSelection | public/js/client.js:251-261 | the set is emptied, every box unticked, both flags cleared, the button disabled |
| FileBrowser.Browser.Navigate | public/js/client.js:264-270 | the selection is cleared, the list (the `..` entry included) is replaced, and the listing request carries the encoded normalised path |
| FileBrowser.Browser.ListingLoaded | public/js/client.js:275-281 | the directory becomes the server's path normalised; one box per entry, ticked iff its path is selected |
| FileBrowser.Browser.ListingFailed | public/js/client.js:282-285 | the list shows neither a box nor the `..` entry; the directory, the selection, its flags and the button are kept |
| FileBrowser.Browser.Render | public/js/client.js:311-366 | the `..` link is `normalizePath(currentPath + '/..')` unless at `/`; one box per entry, ticked iff its path is selected |
| FileBrowser.Browser.DrawBoxes | public/js/client.js:329-345 | the box loop: the paths are `ChildPaths` of the directory, each ticked iff selected |
| FileBrowser.Browser.ToggleBox | public/js/client.js:347-364 | the box's path joins or leaves the set; the flags follow the tick count; ticks stay equal to the selection |
| FileBrowser.TickEvery | public/js/client.js:430-439 | the `forEach`: every box takes the tick; ticking appends the shown paths not yet selected, in box order, after the old selection; unticking keeps the old selection minus the shown paths, in order |
| FileBrowser.Browser.SelectAllChanged | public/js/client.js:427-443 | every box follows the select-all box; the selection becomes the old one followed by the new shown paths in box order, or the old one without the shown paths; indeterminate is cleared |
| FileBrowser.Browser.DownloadSelected | public/js/client.js:446-465 | with nothing selected no request and nothing changes; otherwise the archive URL carries the selected paths in insertion order, the selection is cleared, every box unticked, both flags cleared and the button disabled |
| Listing.MapInfo | server.js:47 | one record per entry, in order |
| Listing.CompareMeansBefore | server.js:47 | the comparator puts `a` first exactly when `a` may precede `b` (a directory before a file, then name order); it is antisymmetric |
| Listing.Insert | server.js:47 | inserting adds exactly one element |
| Listing.Sort | server.js:47 | the sorted list is a permutation of its input |
| Listing.SortSorted | server.js:47 | the sorted list is ordered by the comparator's relation |
| Listing.FilesPermutation | server.js:47 | the listing has one record per entry, each as often as `readdir` reported it |
| Listing.FilesFromEntries | server.js:47 | every record comes from an entry: same name and size, `dir` iff a directory, `mtime * 1000` |
| Listing.DirsBeforeFiles | server.js:47 | every directory precedes every file |
| Listing.NamesAscendWithinType | server.js:47 | within one type the names ascend |
| Listing.ComparatorRespected | server.js:47 | consecutive records are in the comparator's order |
| Listing.LexTotal | server.js:47 | the name order is total |
| Listing.LexTrans | server.js:47 | the name order is transitive |
| Listing.LexAntisymmetric | server.js:47 | the name order is antisymmetric |
| PosixPath.StripTrailingSlashes | server.js:71 | a prefix of the path without a final `/`, having dropped only slashes |
| PosixPath.Basename | server.js:71 | the base name holds no `/` |
| PosixPath.Dirname | server.js:71 | the directory name is never empty |
| PosixPath.NormalPathParts | server.js:71 | for a normal absolute path other than `/`, the base name is its last segment and the directory name renders the others |
| PosixPath.LastComponent | server.js:71 | `a/x` with `a` rooted splits into `a` and `x` |
| PosixPath.RootParts | server.js:71 | for `/` the base name is empty and the directory name is `/` |
| PosixPath.TrailingSlashIgnored | server.js:71 | for every non-empty path, rooted or not, a trailing `/` changes neither answer |
| PosixPath.PlainNameParts | server.js:71 | a name without `/` has itself as base name and `.` as directory |
| FileApi.FilesAnswer | server.js:47 | listing: 200 with the sorted records of the listed path, or 400 with the error and the path; `readdir` of the `path` parameter or `.` |
| FileApi.EmptyPathListsDot | server.js:47 | a missing or empty `path` lists `.` |
| FileApi.AttachmentSafe | server.js:48 | the `Content-Disposition` value is accepted by `setHeader` exactly when the file name is: tab, U+0020–U+007E and U+0080–U+00FF only |
| FileApi.DownloadAnswer | server.js:48 | download: 400 without a path, 404 iff `stat` fails, 400 for a directory; no reply at all (the throw ends the process) for a base name the header refuses; otherwise a stream with 500 only when it fails before any data |
| FileApi.DownloadNameIsLastSegment | server.js:48 | for a normal absolute file path the attachment is named after its last segment, and the request gets no reply iff that segment has a character the header refuses |
| FileApi.NonLatinNameCrashes | server.js:48 | `/root/报告.txt` gets no reply: the throw in the `stat` callback ends the process |
| FileApi.CorrectedAttachmentSafe | server.js:48 | the RFC 6266 form `filename*=UTF-8''` + the percent-encoded name is accepted for every name and carries the name's UTF-8 bytes |
| FileApi.CleanFilenameSuffix | server.js:54 | the cleaned upload name is the part after the last `/` or `\`, and holds neither |
| FileApi.ListenFromStart | server.js:59-66 | over any sequence of write-stream events: the first decides the reply, a second throws, and each handled event unlinks once |
| FileApi.UploadTempFile | server.js:49-67 | each write-stream event removes the temporary file (twice for an error followed by `close`); nothing removes it on the 503, 400 and join-throw exits |
| FileApi.UploadTarget | server.js:55-66 | the write goes to the joined form path and cleaned name; the first event answers, 200 for `close` and 500 for `error`; a second event throws |
| FileApi.UploadErrorThenClose | server.js:59-66 | an error then the stream's own `close`: 500, the temporary file unlinked twice, and the second reply throws |
| FileApi.RenameAnswer | server.js:69 | rename: 400 unless both paths are given; otherwise `rename(old, new)`, 200 or 500 |
| FileApi.DeleteAnswer | server.js:70 | delete: 400 without path or type; `dir` calls `rmdir`, every other type `unlink`; code 4 on `dir` is 400, other errors 500 |
| FileApi.FileFailureCodeFourIs500 | server.js:70 | code 4 when unlinking a file is an ordinary 500 |
| FileApi.FileContent | server.js:72-81 | the `fileContent +=` handler computes the reference `ContentHandled` |
| FileApi.ContentIsChunks | server.js:77-79 | data then `end`: 200 with the concatenated chunks |
| FileApi.ErrorDropsChunks | server.js:80 | data then `error`: 500 with the error; the data read is dropped |
| FileApi.SaveAnswer | server.js:82-90 | save: 400 without path or content; otherwise write, the first event answers 200 for `close` or 500 for `error`, a second event throws; empty content is saved |
| FileApi.SaveErrorThenClose | server.js:86-87 | an error then the stream's own `close`: 500, then the 200 throws |
| FileApi.UnavailableEverywhere | server.js:47-83 | without a session every file endpoint answers 503 and makes no SFTP call |
| ShellWords.LineWords | server.js:71 | a command line of well-formed arguments is split back into exactly their texts |
| ShellWords.ArgRead | server.js:71 | one well-formed argument is read back as its text |
| ShellWords.SingleQuotedText | server.js:71 | single quoting with `'\''` for each `'` reads back any text unchanged |
| ShellWords.DoubleQuotedText | server.js:71 | inside double quotes, text without `"`, `\`, `$` or `` ` `` reads back unchanged |
| ShellWords.CommandLineAppend | server.js:71 | two command lines joined by a space are the command line of all their arguments |
| PackageDownload.CommandTexts | server.js:71 | the two commands spelled out: `tar -czf "<temp>" -C "<dir>" "<base>"` and `rm -f "<temp>"` |
| PackageDownload.AsWrittenWordsWhenSafe | server.js:71 | for paths free of `"`, `\`, `$` and `` ` ``, the double-quoted commands give `tar` and `rm` exactly the intended words |
| PackageDownload.QuoteInNameSplitsIt | server.js:71 | the double-quoted command as written: a directory `a" "b` reaches `tar` as two names `a` and `b` |
| PackageDownload.QuotedWords | server.js:71 | the single-quoted commands give `tar` and `rm` exactly the intended words for every path |
| PackageDownload.QuotingAgreesWhenSafe | server.js:71 | where the double quoting works, both quotings mean the same words |
| PackageDownload.Refusals | server.js:71 | 503 without SSH/SFTP, 400 without a path, and no remote command either way |
| PackageDownload.NamingAndCommands | server.js:71 | the handler as written, for paths free of `"`, `\`, `$` and `` ` ``: the archive is `basename + ".tar.gz"`; `tar` archives the base name from the directory name into the temporary path; `rm` removes that same path |
| PackageDownload.NamingAndCommandsCorrected | server.js:71 | the same naming and the same words for every path, with the single-quoted commands |
| PackageDownload.CorrectedRefusesAlike | server.js:71 | the corrected handler refuses exactly without SSH/SFTP or without a path, with the same reply |
| PackageDownload.CorrectedAgreesWhenSafe | server.js:71 | where the double quoting works, the corrected handler's commands split into the same words as the original's |
| PackageDownload.FailuresCleanUp | server.js:71 | a failed `tar` or `stat` issues `rm` once and answers 500 |
| PackageDownload.RunAppendsCleanups | server.js:71 | transfer events only ever append the cleanup command |
| PackageDownload.CleanupRuns | server.js:71 | once `finish` or a stream error occurs, cleanup has run |
| PackageDownload.ArchiveNameSafe | server.js:71 | the archive's attachment header is accepted exactly when the directory's base name is |
| PackageDownload.UnsafeNameKeepsArchive | server.js:71 | for a base name the header refuses: `tar` runs, then no reply, and `rm` never runs |
| PackageDownload.NonLatinDirectoryKeepsArchive | server.js:71 | `/root/报告` is archived, then the handler throws and leaves the archive |
| PackageDownload.Streaming | server.js:71 | for a header-safe name, once `tar` and `stat` succeed the handler answers 200 with the archive stream, having issued only `tar`, and the transfer events decide the rest |
| PackageDownload.CompleteTransferCleansOnce | server.js:71 | for a header-safe name, a completed transfer cleans up exactly once and streams the archive in full |
| PackageDownload.EarlyErrorCleansTwice | server.js:71 | for a header-safe name, a stream error before any data answers 500 and cleans up twice |
| PackageDownload.MidwayErrorCleansTwice | server.js:71 | for a header-safe name, a stream error midway, then the client leaving, cleans up twice; the 200 stays cut off and the response is never ended |
| PackageDownload.RunDelivers | server.js:71 | without a stream error the 200 stream stays the reply, and it becomes complete exactly when the pipe ends the response |
| PackageDownload.OnlyPipeCompletes | server.js:71 | no event but the pipe's end makes the reply a complete stream |
| PackageDownload.DeliveredIffPiped | server.js:71 | for a header-safe name the archive is sent in full only if the pipe ends the response; without a stream error the reply is the 200 stream, complete exactly when it does |
| PackageDownload.EarlyCloseCleans | server.js:71 | for a header-safe name, the client leaving early cleans up |
| RemoteExec.ExecuteRemoteCommand | server.js:17 | the accumulating handler settles to `CommandResult`: trimmed output for exit 0, the exit code and stderr otherwise, an error when the command cannot start |
| RemoteExec.OutputOrEmpty | server.js:18 | the `.catch(() => '')` form gives `""` on failure and the output otherwise |
| RemoteExec.ChunkingIrrelevant | server.js:17 | for chunks taken as decoded text, only their concatenation decides the result |
| RemoteExec.FailureLooksLikeBlankOutput | server.js:17-18 | a failing command and one printing only white space look alike |
| Telemetry.UptimeDecomposition | server.js:16 | for `s >= 0`: `d*86400 + h*3600 + m*60 + sec == floor(s)` with `h < 24` and `m, sec < 60` |
| Telemetry.FindLine | server.js:18 | a found line is one of the lines and starts with the prefix |
| Telemetry.FindLineFirst | server.js:18 | nothing is found exactly when no line matches |
| Telemetry.FindLineIndex | server.js:18 | the found line is the first matching one |
| Telemetry.MissingMemoryLineFails | server.js:18 | a sample fails exactly when `MemTotal:` or `MemAvailable:` is missing |
| Telemetry.OsNameRule | server.js:18 | `N/A` without a `PRETTY_NAME=` line; otherwise the first such line's value, with no `"` |
| Telemetry.PrettyNameValue | server.js:18 | the value kept is the part before the value's own first `=`, unquoted |
| Telemetry.NetCountersRule | server.js:18 | counters are 0 unless interface and table are non-empty and some trimmed line starts with `iface:`; then fields 1 and 9 of the first such line |
| Telemetry.TickRatesRule | server.js:101 | rates are 0 for the first sample and when time did not advance; otherwise rate times elapsed seconds is the counter difference |
| Telemetry.NegativeRate | server.js:101 | a counter that went down gives a negative rate |
| ShellBridge.Property | server.js:101 | a key's value comes from some field; missing iff no field has the key |
| ShellBridge.DemuxExactlyOne | server.js:101 | each frame either sets the window (iff it parses to an object of type `resize`) or is written unchanged, never both |
| ShellBridge.KeystrokesPassThrough | server.js:101 | non-JSON text, and JSON that is not an object, is written unchanged |
| ShellBridge.OtherTypesAreTyped | server.js:101 | an object of any other type is written unchanged |
| ShellBridge.PastedResizeIsSwallowed | server.js:101 | a pasted resize object changes the window instead of being typed |
| ShellBridge.Gather | server.js:18 | all eight outputs, `ip`, `cpuModel`, `cpuCores`, `uptime`, `memInfo`, `osInfo`, `netInterface` and `netDev`, are in turn the result of the command in that position, or `""` when it failed |
| ShellBridge.FailedMemInfoFailsSample | server.js:18 | a failed `cat /proc/meminfo` fails the sample |
| ShellBridge.FailedNetCommandGivesZero | server.js:18 | a failed network command gives 0 counters |
| ShellBridge.TerminalSession.constructor | server.js:98-100 | a new connection: nothing sent, no sample |
| ShellBridge.TerminalSession.OnShell | server.js:101 | frames are routed and the interval starts |
| ShellBridge.TerminalSession.OnShellData | server.js:101 | shell output is forwarded while the socket is open |
| ShellBridge.TerminalSession.OnMessage | server.js:101 | each routed frame adds exactly one window change or one write, as `Demux` decides |
| ShellBridge.TerminalSession.Tick | server.js:101 | a failure clears the last sample; a success records it and sends it with `TickRates` |
| ShellBridge.TerminalSession.OnWsClose | server.js:103 | the interval stops and the SSH client disconnects |
| ShellBridge.TerminalSession.OnShellClose | server.js:101 | the socket is closed, which stops the interval |
| ShellBridge.TerminalSession.OnSshError | server.js:102 | the message is sent if the socket is open, then the socket closes |
| ShellBridge.FailureResetsRates | server.js:101 | after a failed tick the next sample reports zero rates |
| ShellBridge.ConsecutiveTicks | server.js:101 | two successful ticks: the second reports the counter difference over the elapsed time |
| ShellBridge.EarlyCloseLeavesInterval | server.js:101-103 | a socket closed before the shell is ready leaves the later interval running |
| SftpSupervisor.AnswersBounded | server.js:44 | no more callbacks than requests, no more reconnects than closes |
| SftpSupervisor.SessionNeedsReadyAndCallback | server.js:44 | a session is set only after a `ready` and then a successful callback for it, with nothing clearing it since |
| SftpSupervisor.ReadyBefore | server.js:44 | an `sftp()` request means a `ready` occurred |
| SftpSupervisor.StaleEndClearsNewSession | server.js:44 | the `end` of an old session clears the new one |
| SftpSupervisor.FirstConnection | server.js:44 | open, close, reconnect: no session, one of each event |
| SftpSupervisor.Append | server.js:44 | how one event changes each count and the session |
| SftpSupervisor.NeutralEvents | server.js:44 | a failed callback, a second `ready` or a fired timer leave the session as it was |
| SftpSupervisor.Supervisor.constructor | server.js:42-44 | one `connect`, no session |
| SftpSupervisor.Supervisor.OnReady | server.js:44 | requests one SFTP session |
| SftpSupervisor.Supervisor.OnSftpCallback | server.js:44 | a session becomes the global; an error leaves the global as it was |
| SftpSupervisor.Supervisor.OnSftpEnd | server.js:44 | the global is cleared, whichever session ended |
| SftpSupervisor.Supervisor.OnError | server.js:44 | the global is cleared |
| SftpSupervisor.Supervisor.OnClose | server.js:44 | the global is cleared and exactly one 5000 ms reconnect is scheduled |
| SftpSupervisor.Supervisor.OnTimer | server.js:44 | the oldest reconnect fires and connects again |
| Routing.ClientRequestsRouted | public/js/client.js:270-741 | each request of the browser reaches its handler; `/api/mkdir` and `/api/touch` reach none |
| Routing.RoutedOnlyRegistered | server.js:47-90 | only the eight registered method/path pairs, up to ASCII case and one trailing `/`, reach a handler |
| Routing.RoutePathMatches | server.js:47-90 | a registered path is matched by exactly the paths that lower-case to it or to it followed by `/` |
| Routing.CaseAndTrailingSlash | server.js:47 | `/API/Files` and `/api/files/` list a directory; `/api/files//` reaches no handler |
| Routing.PathQueryCarriesPath | public/js/client.js:270 | the raw query parameter `path` carries `Encode(p)`, whose percent-decoding is the UTF-8 bytes of `p` |
| Routing.PackageRequestRefused | public/js/client.js:456-457 | the archive request for any non-empty selection is refused with 400 and runs no remote command |
| Routing.ClearedSessionRefusesAll | server.js:44 | after an `end`, `error` or `close`, every handler answers 503 and the archive handler runs nothing |

## Left out

- The UI: the terminal widget, context menu, editor modal, status
  messages, timers and DOM rendering. Only state the file panel keeps is
  modelled.
- Cookie writing (`setCookie`, with its `Date` expiry). The browser's
  cookie string is an input of the lookup.
- `formatBytes` in both files, and every formatted number: they rest on
  floating-point `Math.log`, `Math.pow` and `toFixed`. Rates are exact
  reals, with `None` for `NaN`.
- Listing.Compare: `localeCompare` is replaced by code-point order on
  names. It is a total order, as the sort needs, but not the locale's
  order.
- Listing.Sort: `Array.prototype.sort` is modelled as a stable insertion
  sort. Its order of equal elements is therefore one of several the
  engine may produce.
- Strings.Lower: `toLowerCase` lower-cases only ASCII `A`–`Z`.
- The latin1-to-UTF-8 re-decoding of upload names. The name is taken as
  already decoded.
- `path.posix.join` in the upload handler is a function parameter.
  `basename` and `dirname` are modelled for `/`-separated paths only,
  without Windows forms.
- `JSON.parse` of WebSocket frames is an input (the parsed value or
  nothing). The browser's JSON bodies are taken as either strings or
  missing; objects and numbers in `req.body` are not modelled.
- Express's query arrays: a repeated query parameter is read as its first
  value.
- `Date.now()` and `Math.random()` in the archive's temporary path are
  the parameters `stamp` and `token`.
- SSH, SFTP, streams, `exec` and the sockets. Their outcomes are inputs:
  a `stat` result, an error code, command output chunks, stream and
  socket events. Reading or writing file contents on the remote host is
  a recorded SFTP call.
- Concurrency: events of one connection arrive one at a time, and
  different sessions are not interleaved. The reconnect timer is a queue
  of delays.
- HTTP basic authentication and the server's SSH configuration. Neither
  is part of this model.
- The static file server beyond the fact that unregistered API paths
  reach it.
- RemoteExec.ChunkingIrrelevant: chunks are taken as already-decoded
  text. The handler decodes each `Buffer` chunk on its own, so a UTF-8
  character split across two chunks turns into replacement characters;
  that is not modelled.
- Telemetry.RemoteStats: the uptime is an input already parsed. The
  `parseFloat` of the `/proc/uptime` text is not modelled.
- Routing.RouteOf: Express's default, non-strict and case-insensitive,
  matching is modelled on the raw path: ASCII case folding and one
  optional trailing `/`. Route parameters, mounting and `app.use` prefix
  matching are not modelled.
- A throw that nothing catches ends the server process. The model records
  it (`FileApi.Handled.Crashed`, `WriteEffect.thrown`, `Transfer.crashed`)
  and handles nothing after it; the restart, and the other requests lost
  with the process, are not modelled.
- The syntax of the `Content-Disposition` value: a `"` in a name passes
  `setHeader` and only garbles the header, which is not modelled.
- Strings are sequences of Unicode scalar values, while JavaScript
  strings are UTF-16 code units. A lone surrogate cannot be written in
  the model, so the `URIError` that `encodeURIComponent` throws on one is
  not modelled; nowhere else in this core is the difference visible.
- ShellWords.Words: the command-line reader covers blanks, the three
  quoting forms and backslash inside double quotes. Characters outside a
  conservative allow-list of letters, digits and `-./_+,:@%` are not
  read bare. Expansions and operators are not modelled.

## Findings

| source | as written | input that shows it | evidently intended | confidence | as-written member | corrected member |
|---|---|---|---|---|---|---|
| server.js:71 | the directory's parent, base name and temporary path are put between double quotes without escaping | a directory named `a" "b` (`tar` receives the two names `a` and `b`; `$`, `` ` `` or `\` in a name are likewise interpreted by the shell) | `tar` and `rm` receive exactly the three paths whatever they contain | not executed | PackageDownload.QuoteInNameSplitsIt | PackageDownload.NamingAndCommandsCorrected |
| server.js:48 | the base name goes into `Content-Disposition` as it is, and `setHeader` throws on any character outside tab, U+0020–U+007E and U+0080–U+00FF; the throw is in an SFTP callback, so nothing catches it | `GET /api/download?path=/root/报告.txt` (likewise an archive of `/root/报告`, which also leaves the temporary archive) | every file can be downloaded under its own name, as with the `filename*=UTF-8''` form of RFC 6266 | not executed | FileApi.NonLatinNameCrashes | FileApi.CorrectedAttachmentSafe |

`PackageDownload.TarCommand` and `PackageDownload.RmCommand` build the
commands as written, and `PackageDownload.Begin` and
`PackageDownload.PackageHandled` issue them, so the handler's words are
proved correct only for safe paths (`PackageDownload.NamingAndCommands`).
`PackageDownload.BeginCorrected` issues the single-quoted
`QuotedTarCommand` and `QuotedRmCommand` instead. It is right for every path
(`PackageDownload.NamingAndCommandsCorrected`) and means the same as the
original wherever the original works
(`PackageDownload.CorrectedAgreesWhenSafe`).

`FileApi.DownloadHandled` and `PackageDownload.PackageHandled` set the
attachment header as written. `FileApi.CorrectedAttachment` is the
RFC 6266 form, and `FileApi.CorrectedAttachmentSafe` proves that
`setHeader` accepts it for every name.
