# nodes.js core, modelled in Dafny

This project models the logic of several parts of the `nodes.js` HTTP/2 server
toolkit:

- **Cache busting** (`updateCacheVersionsInUrls`). A URL in an HTML or
  Markdown file that names a local file gets `?v=<hash>`, where the hash is
  the first eight hex digits of the SHA-256 of the file's modification time.
  URLs that are external, empty or templated are left alone. Code spans are
  stashed behind `___CODE_BLOCK_<i>___` placeholders first and put back at the
  end. Import maps get every value versioned.
- **Cluster supervisor** (`clusterRunner`, primary branch). The primary writes
  `primary.pid` and forks the workers. It replaces a worker that dies unless
  the death came from SIGINT, in which case it exits. On its own SIGINT it
  removes the pid file and exits. SIGUSR1 hands the current workers to the
  rolling restart and logs its outcome.
- **MIME lookup** (`mimeType`). This is Node's POSIX `path.extname`, then
  lower-casing, trimming and taking the text after the dot, then a lookup in
  the MIME table with the `txt` entry as fallback.
- **File and S3 streaming** (`streamFile`, `streamS3File`). Both build the
  response header object from their options and pass it through the CORS
  step. They answer OPTIONS with 204 and no body. Otherwise they send the
  headers and pipe the body, with listeners for stream errors and the end of
  the stream. The S3 variant answers 404 when the fetch fails and 500 when
  the CORS step throws, and checks `stream.closed` before every answer except
  the OPTIONS one. Neither checks `stream.headersSent`. Each error listener
  responds with 500 while the headers are already out, so its `respond`
  throws before the message is sent. With gzip, the listener is on the gzip
  transform and does not hear the source's errors.
- **URL parameters** (`urlParamsAndQueries`). Its guard always fails, so the
  function always returns empty params and queries. The path-segment binding
  loop it guards is modelled on its own, and so is the evidently intended
  function.

The files and their modules:

| file | module | models |
|---|---|---|
| `js_strings.dfy` | `JsStrings` | the JavaScript string operations the code relies on: `indexOf`, `includes`, `startsWith`, `endsWith`, `split`, `trim`, `toLowerCase`, and `replace` with a string pattern, including its `$` substitution patterns |
| `cache_versions.dfy` | `CacheVersions` | `nodes/nodes/updateCacheVersionsInUrls.js` |
| `cluster.dfy` | `Cluster` | `nodes/cluster.js`; the `Primary` class keeps the supervisor's state, and its methods are the events |
| `mime_type.dfy` | `MimeTypes` | `nodes/mimeType.js` |
| `http2.dfy` | `Http2` | the HTTP/2 stream as the two streaming functions use it: the `closed` and `headersSent` flags, a `respond` that throws on a closed stream or a second call, and the `respond` / `end` / `pipe` calls made so far; which stream of a pipeline an `error` listener hears |
| `stream_file.dfy` | `StreamFile` | `nodes/streamFile.js` |
| `stream_s3_file.dfy` | `StreamS3File` | `nodes/streamS3File.js` |
| `url_params.dfy` | `UrlParams` | `nodes/urlParamsAndQueries.js` |

Parameters stand in for everything outside the modelled code:

- the file system: `stat(url)` gives the modification time of the file a URL
  maps to, or `None`;
- SHA-256: `sha256` returns 64 lower-case hex digits;
- process ids: `pidOfWorker`, and the primary's `pid`;
- the CPU count;
- the MIME table, a `map<string, string>`; the streaming functions take a
  `mimeType` function, which stands for `MimeTypes.MimeType` over that table;
- the CORS step, a function returning the header object it leaves, or `None`
  when it throws;
- the outcome of the S3 fetch.

Operating-system effects of the cluster are recorded in order as `Action`s on
a trace.

`nodes/cluster.js` has no guard against crash loops and no timeout of its own
around the rolling restart: line 59 forks a replacement for every death that
is not a SIGINT, however often workers die, and line 64 calls `unlinkSync` on
`primary.pid` without a `try`.

A JavaScript exception on a stream is modelled as an outcome: `respond`
returns whether it threw, the S3 function's outer `catch` is followed, and an
`error` listener ends as `Unheard` (no listener, so the process gets an
uncaught exception), `ListenerThrew` or `Handled`.

## Model

| member | source | states |
|---|---|---|
| CacheVersions.FileHash | nodes/nodes/updateCacheVersionsInUrls.js:163-166 | the version hash is the first eight characters of the hex digest of the modification time's text, and it is eight lower-case hex digits |
| CacheVersions.FirstVersionPattern | nodes/nodes/updateCacheVersionsInUrls.js:155 | where `/(\?v=).*$/` first matches: a `?v=` followed by no line terminator, with no match before it; `None` when there is no match anywhere |
| CacheVersions.MaybeVersionUrl | nodes/nodes/updateCacheVersionsInUrls.js:138-161 | exempt URLs (empty, `http`, `mailto`, `tel`, `data:`, `${…}`, `{{…}}`) and URLs whose file is not found come back unchanged; otherwise, for a URL without `?v=` or without line breaks, the result is the text before the first `?v=`, then `?v=`, then the file's hash |
| CacheVersions.IsExempt | nodes/nodes/updateCacheVersionsInUrls.js:139-149 | a root-relative path (starting with `/`) with no `$` and no `{` is never exempt, so it is always looked up and versioned |
| CacheVersions.VersionUrl | nodes/nodes/updateCacheVersionsInUrls.js:154-156 | the versioned URL is the URL itself or ends in `?v=` and the hash; a URL without `?v=` is kept as its prefix |
| CacheVersions.VersionUrlShape | nodes/nodes/updateCacheVersionsInUrls.js:154-156 | a URL without `?v=` gets `?v=` and the hash appended; on a URL without line breaks, everything from the first `?v=` on is replaced by `?v=` and the hash |
| CacheVersions.VersionPatternAtFirstOccurrence | nodes/nodes/updateCacheVersionsInUrls.js:155 | on a URL without line breaks the regular expression matches exactly at the first `?v=` |
| CacheVersions.AppendedVersionMatchesAtEnd | nodes/nodes/updateCacheVersionsInUrls.js:156 | once `?v=` and a hash are appended to a URL that had no `?v=`, the version pattern matches first exactly where they were appended |
| CacheVersions.ReplacedVersionMatchesAgain | nodes/nodes/updateCacheVersionsInUrls.js:155 | after the version is replaced, the pattern still matches first at the same index |
| CacheVersions.LastHashWins | nodes/nodes/updateCacheVersionsInUrls.js:154-156 | versioning with one hash and then another gives the same URL as versioning with the second hash alone, on every URL |
| CacheVersions.VersionUrlIdempotent | nodes/nodes/updateCacheVersionsInUrls.js:154-156 | versioning twice with the same hash equals versioning once |
| CacheVersions.VersionImports | nodes/nodes/updateCacheVersionsInUrls.js:39-43 | `updatedImports` has exactly the keys of `imports`, and each value is that key's URL passed through maybeVersionUrl |
| CacheVersions.ToBeProcessed | nodes/nodes/updateCacheVersionsInUrls.js:66-75 | a URL that `toBeProcessed` accepts is never one that maybeVersionUrl exempts |
| CacheVersions.EJsonTagIsSkipped | nodes/nodes/updateCacheVersionsInUrls.js:68 | an `e-json` tag is never processed, whatever its URL |
| CacheVersions.EJsonTemplateIsSkipped | nodes/nodes/updateCacheVersionsInUrls.js:67 | a `template is="e-json"` tag is never processed, for any non-empty white space between the two words and for any URL |
| CacheVersions.StepThreeAgreesWithMaybeVersionUrl | nodes/nodes/updateCacheVersionsInUrls.js:66-75 | for every tag other than `e-json`, `template is="e-json"` and `a`, Step 3 processes a URL exactly when maybeVersionUrl would not exempt it (both directions) |
| CacheVersions.LowerCaseUnchanged | nodes/nodes/updateCacheVersionsInUrls.js:62 | `toLowerCase` leaves a tag name without upper-case letters as it is |
| CacheVersions.MarkupFiles | nodes/nodes/updateCacheVersionsInUrls.js:111 | the filter keeps only names ending in `.html` or `.md`, keeps every such name as often as it occurs, and drops every other name |
| CacheVersions.MarkupFilesAppend | nodes/nodes/updateCacheVersionsInUrls.js:111 | the filter keeps order: filtering two lists one after the other gives the filtered lists one after the other |
| CacheVersions.MarkupFilesSingle | nodes/nodes/updateCacheVersionsInUrls.js:111 | a single name is kept exactly when it ends in `.html` or `.md` |
| CacheVersions.CodeSpanAt | nodes/nodes/updateCacheVersionsInUrls.js:20 | a match of the code-span pattern at the start of the text is within the text, starts and ends with a backtick, and is at least two characters long |
| CacheVersions.Stash | nodes/nodes/updateCacheVersionsInUrls.js:19-25 | every stashed block is a backtick-delimited span |
| CacheVersions.StashCodeBlocks | nodes/nodes/updateCacheVersionsInUrls.js:19-25 | the loop gives the text with each code span replaced, left to right, by placeholders numbered from 0, and the spans in order of appearance |
| CacheVersions.RestoreCodeBlocks | nodes/nodes/updateCacheVersionsInUrls.js:101-103 | the `forEach` puts block `i` back at the first `___CODE_BLOCK_i___`, in index order, with the block taken literally |
| CacheVersions.RestoreStashFrom | nodes/nodes/updateCacheVersionsInUrls.js:19-25 | after any prefix without the marker, restoring the stashed blocks gives back the original text |
| CacheVersions.RestoreUndoesStash | nodes/nodes/updateCacheVersionsInUrls.js:101-103 | stashing and then restoring literally gives back any text without `___CODE_BLOCK_` |
| CacheVersions.RestoreAsWritten | nodes/nodes/updateCacheVersionsInUrls.js:101-103 | when no block contains `$`, the restore as written, which interprets `$` patterns, equals the literal restore |
| CacheVersions.RestoreAsWrittenUndoesStash | nodes/nodes/updateCacheVersionsInUrls.js:101-103 | the restore as written undoes the stash on text without `___CODE_BLOCK_` whose code spans hold no `$` |
| CacheVersions.RestoreAsWrittenLosesDollar | nodes/nodes/updateCacheVersionsInUrls.js:102 | the text `` `$$` `` is stashed as placeholder 0, and the restore as written turns it into `` `$` `` |
| Cluster.WorkerCount | nodes/cluster.js:34 | an omitted or zero `numberOfWorkers` falls back to the CPU count; any other value is kept |
| Cluster.ForkCount | nodes/cluster.js:49-51 | the loop forks the worker count when that count is not negative, and forks nothing otherwise |
| Cluster.ExitCause | nodes/cluster.js:55 | `${signal \|\| code}`: a non-empty signal name, else the exit code's decimal text, else `null` |
| Cluster.ExitLine | nodes/cluster.js:55-58 | the exit line is `worker <pid> died (<cause>). ` followed by `exiting...` for SIGINT and `restarting...` otherwise, and is exactly as long as those two parts |
| Cluster.ExitLineTellsOutcome | nodes/cluster.js:54-58 | the exit line ends in `exiting...` if and only if the signal is SIGINT |
| Cluster.RemoveWorker | nodes/cluster.js:53 | removing a worker from the live set leaves only workers already present, none with that id |
| Cluster.RemovePresentWorker | nodes/cluster.js:53 | with ascending ids, removing the exited worker takes out exactly that one entry and keeps the order of the rest |
| Cluster.RemovalKeepsInv | nodes/cluster.js:53 | the live set keeps its invariant after a worker leaves it (ascending ids below the next id, each worker with its pid and the primary's environment), and shrinks by one |
| Cluster.AppendKeepsInv | nodes/cluster.js:59 | a replacement forked with the next id keeps the invariant |
| Cluster.Primary.Start | nodes/cluster.js:34-51 | startup writes the pid to `primary.pid`, reads the secrets, sets up file logging exactly when a log file is given, and runs the primary script; it then forks exactly the worker count, each worker with `CONFIG` and `USE_FILE_LOGGING = (logFile !== undefined)` and numbered 1, 2, … |
| Cluster.Primary.OnWorkerExit | nodes/cluster.js:53-61 | a SIGINT death logs the exit line and exits the primary, forks nothing and keeps `primary.pid`; any other death logs and forks exactly one replacement with the same environment and the next id, so the live count is restored and the next id moves on by one; after SIGINT the next id is unchanged |
| Cluster.Primary.OnPrimarySigint | nodes/cluster.js:63-66 | the primary's SIGINT removes `primary.pid` and then exits, leaving the workers as they are |
| Cluster.Primary.OnSigusr1 | nodes/cluster.js:68-70 | SIGUSR1 hands the rolling restart a snapshot of every current worker, index 0 and the restart time |
| Cluster.Primary.OnRestartFinished | nodes/cluster.js:70-76 | the restart callback logs the error first, if there is one, and then the success line |
| Cluster.RestartFinishedLog | nodes/cluster.js:71-75 | the success line comes last and exactly once, with the error before it when there is one |
| MimeTypes.BaseEnd | nodes/mimeType.js:15 | trailing `/` characters are excluded from the base name |
| MimeTypes.BaseStart | nodes/mimeType.js:15 | the base name starts just after the last `/` before its end |
| MimeTypes.LastIndexIn | nodes/mimeType.js:15 | finds the last occurrence of a character in a range, or reports that there is none |
| MimeTypes.ExtBounds | nodes/mimeType.js:15 | the extension is empty or runs from a `.` inside the base name to the end of the base name, with no further `.` or `/` |
| MimeTypes.ExtName | nodes/mimeType.js:15 | `path.extname` gives the empty string or a dot followed by text with no dot and no slash |
| MimeTypes.ExtNameIsLastExtension | nodes/mimeType.js:15 | only the last extension of the base name counts (`a.tar.gz` gives `.gz`), and dots in directory names are ignored |
| MimeTypes.ExtNameWithoutDot | nodes/mimeType.js:15 | a base name without a dot has no extension |
| MimeTypes.DotfileHasNoExtension | nodes/mimeType.js:15 | a dotfile with no other dot, such as `.bashrc`, has no extension |
| MimeTypes.LookupKey | nodes/mimeType.js:16 | the property looked up holds no dot; it is `undefined` when the lower-cased, trimmed extension has no dot |
| MimeTypes.LookupKeyOfExtension | nodes/mimeType.js:16 | an extension `.ext` is looked up under the lower-cased `ext` without its trailing white space |
| MimeTypes.LookupKeyIgnoresTrailingSpace | nodes/mimeType.js:16 | a white-space character after an extension does not change the key, so `a.js ` is looked up under `js` as `a.js` is |
| MimeTypes.MimeType | nodes/mimeType.js:14-17 | the table's entry for the key when it exists and is not empty, otherwise the table's `txt` entry |
| MimeTypes.NoExtensionGetsDefault | nodes/mimeType.js:16 | a file without an extension gets the `txt` entry |
| MimeTypes.MimeTypeIgnoresCase | nodes/mimeType.js:15-16 | two names that differ only in ASCII letter case get the same MIME type |
| StreamFile.ResponseHeaders | nodes/streamFile.js:48-64 | the header object always has `content-type` and `:status`; `content-encoding: gzip` exactly when gzipping and `content-length` equal to the size exactly when not; `etag` equal to `lastModified` exactly when caching; `cache-control` exactly when it is truthy; and nothing else |
| StreamFile.FileHeadersDetermined | nodes/streamFile.js:50-64 | the description of the header object fixes it completely: two objects that meet it are equal |
| StreamFile.ReadErrorMessage | nodes/streamFile.js:91 | the error body is the fixed text followed by the file's path |
| StreamFile.Serve | nodes/streamFile.js:48-88 | the `respond` of line 77 or 87 throws exactly when the CORS step returned and the stream is closed or has already responded, and then nothing is recorded; otherwise OPTIONS sends the post-CORS headers with `:status` 204 and ends with no body, without opening the file, and any other method sends the headers and pipes the file, gzipped exactly when `useGzip`; a throwing CORS step sends nothing; the file is opened exactly when the CORS step returns and the method is not OPTIONS |
| StreamFile.OnReadError | nodes/streamFile.js:84-92 | an error of the file stream is heard only without gzip, and an error of the gzip transform only with it; a heard error on a stream that has already responded ends in a throw from `respond`, with nothing sent; only on a stream that has not responded does it send 500 and the message naming the file |
| StreamFile.OnReadErrorIntended | nodes/streamFile.js:89-92 | the intended listener ends an open stream with the message naming the file, sending 500 first only when no headers are out, and does nothing on a closed stream |
| StreamFile.ServeThenFailRead | nodes/streamFile.js:80-92 | for any request whose file is piped, a read error after the headers are sent ends with the listener throwing or unheard, the calls stay the headers and the pipe, and the message never reaches the stream |
| StreamFile.ServeThenFailReadIntended | nodes/streamFile.js:80-92 | with the intended listener the same request ends with the headers, the pipe and the message naming the file |
| StreamFile.OnReadEnd | nodes/streamFile.js:93-95 | the end of the file ends the stream |
| StreamS3File.ApplyDefaults | nodes/streamS3File.js:13-18 | an omitted status is 200 and an omitted `useGzip`, `useCache` or `useCors` is false; any value passed is kept |
| StreamS3File.ResponseHeaders | nodes/streamS3File.js:46-66 | `content-type` and `:status` always; `content-encoding` exactly when gzipping; `content-length` exactly when not gzipping and `ContentLength` is truthy; `etag` exactly when `useCache` and `lastModified` are both truthy; `cache-control` exactly when truthy; nothing else |
| StreamS3File.ErrorAnswer | nodes/streamS3File.js:37-42 | an error answer is nothing exactly when the stream is closed or has already responded, and otherwise the status followed by the body |
| StreamS3File.AnswerIfOpen | nodes/streamS3File.js:37-42 | on an open stream it responds with the status and ends with the body, its `respond` throwing, with nothing sent, exactly when the headers are already out; on a closed stream it does nothing |
| StreamS3File.CatchServeError | nodes/streamS3File.js:108-113 | the outer `catch` answers 500 with `File could not be served on S3.` as AnswerIfOpen does, and the returned promise rejects exactly when that `respond` throws |
| StreamS3File.SendFound | nodes/streamS3File.js:77-93 | OPTIONS responds with 204 and ends, with no closed check, a throw going to the outer `catch`; any other method responds only on an open stream and pipes the body, unless that `respond` throws; afterwards the stream is closed or has responded |
| StreamS3File.Serve | nodes/streamS3File.js:25-113 | a failed fetch answers 404 with `{"error":"File Not Found."}` only on an open stream that has not responded, and a throw there reaches the outer `catch`; a throwing CORS step answers 500 with `File could not be served on S3.` in the same way; the fetched object's headers follow the header description; the call rejects exactly when the stream is open and had already responded, and then nothing is sent |
| StreamS3File.OnBodyError | nodes/streamS3File.js:89-100 | a body error is heard only without gzip and a gzip error only with it; a heard error does nothing on a closed stream, throws from `respond` on an open stream that has already responded, and otherwise answers 500 with `Internal Server Error while streaming S3 object.` |
| StreamS3File.OnBodyErrorIntended | nodes/streamS3File.js:95-100 | the intended listener ends an open stream with the message, sending 500 first only when no headers are out, and does nothing on a closed stream |
| StreamS3File.ServeThenFailBody | nodes/streamS3File.js:84-100 | for any fetched object and any point at which the peer closes, the message never reaches the stream; on a stream left open the listener throws or does not hear the error |
| StreamS3File.ServeThenFailBodyIntended | nodes/streamS3File.js:84-100 | with the intended listener the same request ends with the headers, the pipe and the message |
| StreamS3File.OnBodyEnd | nodes/streamS3File.js:102-106 | the end of the body ends the stream only when it is open, and changes neither flag |
| StreamS3File.S3HeadersAgreeWithFileHeaders | nodes/streamS3File.js:49-66 | for an object with a non-zero length, with a `lastModified` whenever caching, the S3 headers are the ones `streamFile` sends for a file of that size |
| UrlParams.GuardNeverHolds | nodes/urlParamsAndQueries.js:5 | `(!pattern) instanceof RegExp` is false for every pattern |
| UrlParams.ParamName | nodes/urlParamsAndQueries.js:19 | `part.split(':')[1]` is the text after the first colon up to the next colon or the end, and holds no colon |
| UrlParams.BindPathParams | nodes/urlParamsAndQueries.js:14-21 | the loop binds, in order, each `:name` segment of the pattern to the URL segment at the same index, or to `undefined` past the URL's end |
| UrlParams.PathParamsKeys | nodes/urlParamsAndQueries.js:14-20 | a name is bound exactly when some `:name` segment of the pattern carries it (both directions) |
| UrlParams.PathParamsLastWins | nodes/urlParamsAndQueries.js:19 | a later segment with the same name overwrites an earlier one: the last `:name` binds `name` to the URL segment at its own index |
| UrlParams.ExtraUrlSegmentsIgnored | nodes/urlParamsAndQueries.js:14 | URL segments beyond the pattern's segments change nothing |
| UrlParams.ParamNameStopsAtColon | nodes/urlParamsAndQueries.js:18-19 | a bare `:` segment binds nothing, and `:a:b` binds `a` |
| UrlParams.UrlParamsAndQueries | nodes/urlParamsAndQueries.js:1-40 | for every pattern and URL the result has empty params and empty queries, because the guard of line 5 never holds |
| UrlParams.UrlParamsAndQueriesIntended | nodes/urlParamsAndQueries.js:5-21 | with the guard negated as a whole: a RegExp pattern gives empty results, a non-string throws, a pattern with a query part throws at line 25, and any other string pattern binds its path parameters |
| UrlParams.NamedSegmentExample | nodes/urlParamsAndQueries.js:5 | for `/seg/:name` against `/seg/value` (such as `/post/:id` against `/post/42`), nothing is bound as written, while the intended function binds `name` to `value` |

## Left out

- File-system walking and I/O in `processDirectory` (`readdir`, `stat`, `readFile`, `writeFile`) are not modelled: they are I/O. File lookup and SHA-256 are parameters.
- The Step 3 regular-expression scan over the content (nodes/nodes/updateCacheVersionsInUrls.js:58-97) is not modelled. It depends on `lastIndex` of a global regular expression over a string that is changed during the scan, and on an escaped global replace. Only its `toBeProcessed` filter is modelled.
- Parsing and printing of the import map as JSON (lines 30-53) are not modelled. Only its key-to-URL mapping is, and it assumes every value of `imports` is a string. A non-string value, such as the number 5, makes `url.startsWith` throw inside the loop of lines 39-43. The `catch` at line 51 swallows that error, and the whole script block is left unrewritten; the model does not capture this.
- `pathByUrl` and `srcMapper` are not part of this model. `stat` takes the URL and answers for the file it maps to.
- Logging to the console in `updateCacheVersionsInUrls` and in the streaming functions is left out, because it is I/O. The cluster's own `global.log` lines are on the trace.
- Processes, `cluster.fork`, signals and `process.exit` are recorded as trace actions, not performed.
- The rolling-restart routine `disconnectAndExitAllWorkersWithTimeoutRecursively` is not part of this model. SIGUSR1 records the call that hands it the workers.
- `readSecrets` and `setupFileLogging` are recorded as actions; their effects are not modelled.
- The worker branch of `clusterRunner` (nodes/cluster.js:79-87) is not modelled: it only loads the worker script.
- Cluster.WorkerCount: a non-integer `numberOfWorkers` is not modelled. Integers and an omitted value are.
- Cluster.Primary.OnWorkerExit: the `exit` event is modelled for a worker in the live set only, which is the only case the cluster module raises.
- Gzip and stream piping are recorded as a `Pipe` call; compression itself is not modelled.
- The S3 client, `addCorsHeadersIfNeeded`, `allowedOrigin` and the MIME table are not part of this model. CORS is a parameter applied after the base headers and before the OPTIONS override, and the table is a parameter.
- StreamFile.Serve: a throwing CORS step is reported in `threw`. The model does not follow the exception past `streamFile`.
- StreamS3File.Serve: of the errors caught by the outer `catch` (lines 108-113), a throwing CORS step and a throwing `respond` are modelled. Errors that `end` and `pipe` raise asynchronously on a closed stream are not; those calls are recorded as made.
- StreamFile.OnReadError, StreamS3File.OnBodyError: a throw out of a listener, and an unheard `error` event, are recorded as the outcome and not followed further, since they end in Node's uncaught-exception handling.
- The `closed` flag of the stream is set only by the peer (`Stream.Close`). The model does not set it on `end()`, and `pipe` does not end the stream, so the guards are modelled on the flag as given.
- Cluster.Primary.OnPrimarySigint: it requires a primary that has not exited, whose `primary.pid` exists, so the model never lets `unlinkSync` fail; a pid file removed from outside the process is not modelled.
- `toLowerCase` is modelled on ASCII letters only; other Unicode case mappings are not modelled.
- Table keys that clash with object prototype properties, such as `__proto__` or `constructor`, are not modelled: the MIME table is a plain map.
- The query loop of `urlParamsAndQueries` (lines 23-33) is not modelled. It is unreachable, and it reads `urlQueryPart` before its initialisation.
- `nodes/setupFileLogging.js`, `nodes/src.js`, `nodes/defaultSrcNotFoundHandler.js` and `example/*` are not part of this model.

## Findings

| source | as written | input that shows it | evidently intended | confidence | as-written member | corrected member |
|---|---|---|---|---|---|---|
| nodes/nodes/updateCacheVersionsInUrls.js:102 | each code block goes back through `content.replace(placeholder, codeBlock)` with the block as a replacement string, so `$$`, `$&`, `` $` `` and `$'` in it are interpreted | a file holding the inline code span `` `$$` ``: it comes back as `` `$` `` | the stashed block is put back verbatim | not executed | CacheVersions.RestoreAsWrittenLosesDollar | CacheVersions.RestoreUndoesStash |
| nodes/urlParamsAndQueries.js:5 | `!pattern instanceof RegExp` parses as `(!pattern) instanceof RegExp`, which is always false, so nothing is ever bound | pattern `/post/:id` and URL `/post/42` give empty `params` | `!(pattern instanceof RegExp)`, binding `id` to `42` | not executed | UrlParams.NamedSegmentExample | UrlParams.UrlParamsAndQueriesIntended |
| nodes/streamFile.js:90 | the read-error listener calls `respond` after line 87 has already sent the headers, so it throws `ERR_HTTP2_HEADERS_SENT` and line 91 never sends the message; with gzip the listener sits on the gzip transform (line 85), which does not hear read errors | any GET of a file whose read fails after the headers go out | the client gets the error message (and status 500 when no headers are out yet) | not executed | StreamFile.ServeThenFailRead | StreamFile.ServeThenFailReadIntended |
| nodes/streamS3File.js:97 | the body-error listener checks `stream.closed` but not `stream.headersSent`, so on an open stream its `respond` throws after line 85 has sent the headers, and line 98 never sends the message; with gzip it sits on the gzip transform (line 90), which does not hear body errors | any GET of an S3 object whose body stream fails after the headers go out | the client gets the error message (and status 500 when no headers are out yet) | not executed | StreamS3File.ServeThenFailBody | StreamS3File.ServeThenFailBodyIntended |
