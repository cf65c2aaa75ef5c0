# easytransfer, modelled in Dafny

easytransfer shares a file or a directory over HTTP through one-off download links.
Two programs do this:

- **httpserver** keeps a registry: a map from a random 64-bit id to a resource, which
  is a path, a remaining download count and a deadline.
  - A POST from 127.0.0.1 publishes a path under a fresh id.
  - A GET of `/<id>` downloads it.
  - A DELETE from 127.0.0.1 revokes it.
  - A GET of `/` from 127.0.0.1 first sweeps out the expired entries, then lists the rest.
- **easytransfer** shares a single path under a single id. Any request that ends the
  share sets a `quit` flag, and the process is signalled to stop after that request.

In both programs a download does four things. It checks that the path can still be
served. It checks the deadline. It packages a directory into a `.tgz` archive in the
temporary directory, then rebinds the path to that archive. Finally it sends the file
and takes one from the count.

The model is split into modules:

- `Paths`: the boost::filesystem path arithmetic both programs use (file name,
  extension, parent, `operator/`, `replace_extension`). It also holds the archive path
  and the name a file gets inside the archive.
- `Decimal`: the decimal text of ids.
- `Http`: the status lines, the responses, and how the id is read from a request path.
- `Filesystem`: the filesystem as four sets of facts. It holds `check_path`, the
  effect of packaging, and the packaging step of a download.
- `Registry`: httpserver's handlers, written as functions from the old map to the
  response and the new map. The class `Server` holds the map and updates it in
  place, one method per handler. `RegistryFacts` holds the lemmas about them.
- `Transfer`: easytransfer's globals, its GET handler and its callback. The
  functions specify them, and the class `Transfer` updates its fields in place.
  `TransferFacts` holds the lemmas.

What comes from outside the programs is a parameter of the model:

- the clock reading `now`;
- the temporary directory;
- the filesystem;
- the id the random generator draws (a nondeterministic choice in the generator's
  range, reported back as a ghost value);
- in httpserver, whatever an uninitialised deadline holds, as `stale`.

Where the code departs from the intended design, the model follows the code:

- GET of an entry whose path fails `check_path` erases the entry and answers with the
  check's own status (404, 403 or 400), not 410.
- Expiry is `deadline < now`, so the entry is still served at `now == deadline`. The
  sweep before the listing uses the same strict test.
- POST draws ids from the closed range [2^32, 2^62]. It does not check for a
  collision: an entry already under the drawn id is replaced.
- POST sets the deadline only when the body carries `time`. Otherwise the deadline is
  left uninitialised (`stale`), and 3600 seconds is only what gets logged. The count
  is taken from `count` as given, even when it is zero or negative.
- The listing is in ascending id order, which is how `std::map` iterates; it is not
  in insertion order.
- A directory is packaged only while its path is still a directory. After packaging,
  the entry points at the archive, which is a regular file. There is no separate
  "packaged" flag.
- `replace_extension` replaces a dotted directory's last extension: sharing
  `/a/my.photos` packages it into `<temp>/my.tgz` (`Paths.StemOfDottedName`), and
  directories with the same stem, such as `a.x` and `a.y`, overwrite the same archive
  (`Paths.SameStemSameArchive`).
- A hidden directory's name (such as `.cache`) counts entirely as extension, so
  its archive is named `.tgz`. No leading dot is stripped.
- A directory path that ends in '/' (as `absolute()` keeps `easytransfer photos/`) has
  the file name ".", so it is packaged into `<temp>/..tgz` and offered as `..tgz`
  (`Paths.TrailingSeparatorArchive`). Sharing the root "/" packages it into
  `<temp>/.tgz`.
- easytransfer's id `the_uuid` is never assigned, so it stays 0. A request path with no
  digit after the `/` also reads as 0, so it downloads the shared file.
- easytransfer's deadline is computed as the code has it: `now * 60` plus
  `minutes * 60`, with that product wrapped to 32 bits. The first term is sixty times
  the clock reading, so in practice a link does not expire by time
  (`TransferFacts.NotExpiredUntilSixtyfold`). The process still ends when its sleep of
  `duration` seconds runs out.
- easytransfer's GET continues after a failed `check_path` (there is no `else`). The
  program is told to end, but `mg_send_file` is still called on the path and the
  download is counted.

## Model

| member | source | states |
|---|---|---|
| Paths.FilenameFacts | httpserver.cpp:313 | `path::filename()` is non-empty for a non-empty path and holds no separator except for the root; for a path not ending in '/' it is exactly the tail after the last separator; a path ending in '/' has the file name ".", the root "/" its own |
| Paths.ExtensionFacts | httpserver.cpp:314 | `path::extension()` is empty or a single dot followed by no other dot, taken from the end of the file name, so it runs from the name's last dot; it is empty exactly for ".", ".." and a name without a dot |
| Paths.StemOfDottedName | httpserver.cpp:313-314 | a name `a.b` whose `b` has no dot has the extension `.b` and the stem `a` |
| Paths.SameStemSameArchive | httpserver.cpp:313-314 | two directories with the same stem are packaged into the same archive path |
| Paths.Stem | httpserver.cpp:313-314 | the file name is the stem followed by the extension, and the stem holds no separator |
| Paths.FilenameOfJoin | httpserver.cpp:313 | `operator/` with a plain name: the file name of the result is that name |
| Paths.PackagedPathJoin | httpserver.cpp:313-314 | for every non-empty directory path other than the root, the archive path is the temporary directory, then one separator unless it already ends in one, then the directory's stem and ".tgz"; for the root it is the temporary directory, "/" and ".tgz" |
| Paths.PackagedPathName | httpserver.cpp:313-320 | for every non-empty directory path the archive is offered under the name `<stem>.tgz` (".tgz" for the root), and its extension is ".tgz" |
| Paths.TrailingSeparatorArchive | httpserver.cpp:313-314 | a directory path ending in '/' has the stem ".", and is packaged into `<temp>/..tgz` and offered as "..tgz" whatever the directory is called |
| Paths.HiddenNameIsAllExtension | httpserver.cpp:314 | a name with a leading dot and no other dot is all extension, so its stem is empty |
| Paths.HiddenDirectoryArchive | httpserver.cpp:313-314 | a hidden directory is packaged into `<temp>/.tgz` |
| Paths.ParentOfChild | httpserver.cpp:230 | `parent_path()` of `parent/leaf` is the parent, or "/" for a top-level entry |
| Paths.EntryNameAsWrittenCharacterised | httpserver.cpp:230-246 | as written, files under `parent/leaf` are stored as `leaf/rel`, but under a top-level directory as `leaf[1..]/rel` |
| Paths.EntryNameAsWrittenTopLevel | httpserver.cpp:230-246 | as written, sharing "/tmp" stores "/tmp/a.txt" as "mp/a.txt" |
| Paths.EntryNameKeepsLeaf | httpserver.cpp:230-246 | the corrected offset stores every file as `leaf/rel`, where `leaf` is the directory's own file name |
| Decimal.Digits | httpserver.cpp:382 | the decimal text of an id is non-empty, all digits, and has no leading zero unless the id is 0 |
| Decimal.ValueOfDigits | httpserver.cpp:382 | reading back the decimal text of `n` gives `n` |
| Http.ParseId | httpserver.cpp:283 | a path with no digit after the '/' reads as 0; otherwise the digits after the '/' are read as a value below 2^64, and anything else makes `lexical_cast` throw |
| Http.ParseIdRoundTrip | httpserver.cpp:283 | "/" followed by the 201 body parses back to the same id |
| Filesystem.CheckPath | httpserver.cpp:76-104 | "" exactly for a directory or an existing file that opens; 403 exactly when it does not open and errno is EACCES; 400 exactly when it does not open for another reason; 404 exactly when the path does not exist (easytransfer.cpp:74-102 is the same function) |
| Filesystem.NextAsWritten | httpserver.cpp:234-271 | one pass of the loop moves past a directory or a file that opens, and stays on a file that does not open |
| Filesystem.StuckBeforeUnreadable | httpserver.cpp:252-258 | from any position at or before a file that does not open, no number of passes reaches the end of the entries |
| Filesystem.ArchivedFiles | httpserver.cpp:234-271 | the files whose contents the walk writes are exactly the entries that are not directories and open |
| Filesystem.CompressEntries | httpserver.cpp:234-271 | the corrected loop ends and writes exactly `ArchivedFiles` of the entries, in the iterator's order |
| Filesystem.Package | httpserver.cpp:216-275 | after packaging, the archive path is a regular file that passes the check, and every other path is as before |
| Filesystem.Prepare | httpserver.cpp:311-317 | a directory is packaged and the path rebound to its archive; any other path is left as it is |
| Filesystem.ServeOnce | httpserver.cpp:311-316 | the served path is a regular file that passes the check, and serving it again packages nothing |
| Registry.Sweep | httpserver.cpp:449-460 | the entries kept are exactly those whose deadline has not strictly passed, with their values unchanged |
| Registry.SortedIds | httpserver.cpp:464-465 | the keys listed once each, in strictly ascending order |
| Registry.RowsShowEntries | httpserver.cpp:464-470 | one row per entry, each showing id, count, deadline and path of an entry in the map |
| Registry.RowsAscending | httpserver.cpp:464-465 | rows are in strictly ascending id order |
| Registry.RowsComplete | httpserver.cpp:464-470 | every entry has a row |
| Registry.Server.constructor | httpserver.cpp:58 | the registry starts empty |
| Registry.Server.HandleGet | httpserver.cpp:279-331 | handle_get's response and new map are those of the consumption rule `Get`; ids stay in the generator's range |
| Registry.Server.ConsumeId | httpserver.cpp:287-307 | after the lookup: 404 for an absent id; the check's status and erasure for a failing path; 410 and erasure past the deadline; otherwise the download |
| Registry.Server.Serve | httpserver.cpp:308-323 | the download: the served path is sent, the filesystem gains the archive of a directory, and the entry is rebound with count - 1, or erased when that is 0 |
| Registry.Server.HandlePost | httpserver.cpp:335-391 | the id is drawn from [2^32, 2^62]; response and new map are those of `Create` |
| Registry.Server.HandleDelete | httpserver.cpp:395-420 | response and new map are those of `Revoke`: a present id is erased and answered 200, an absent one answered 404 with the map unchanged |
| Registry.Server.ExpiredIds | httpserver.cpp:449-458 | the first loop collects exactly the ids whose deadline has passed |
| Registry.Server.ListRows | httpserver.cpp:462-470 | the second loop produces the listing of the map, row by row, in id order |
| Registry.Server.SweepAndList | httpserver.cpp:444-470 | the map becomes its sweep, and the rows are the listing of what is left |
| Registry.Server.Callback | httpserver.cpp:424-493 | every request is answered and changes state as `Dispatch` says: listing for loopback "/", GET, and POST/DELETE only from loopback |
| RegistryFacts.UnknownIdNotFound | httpserver.cpp:287-291 | an absent id is answered 404 and nothing changes |
| RegistryFacts.NonNumericNotFound | httpserver.cpp:283-291 | a path with no digit after '/' reads as id 0, which is never a key, so it is answered 404 |
| RegistryFacts.FailedCheckErases | httpserver.cpp:298-300 | a failing path check erases the entry and answers 404, 403 or 400, never 410 |
| RegistryFacts.ExpiredErased | httpserver.cpp:302-307 | past the deadline the entry is erased and answered 410 |
| RegistryFacts.ConsumeCountsDown | httpserver.cpp:309-322 | a download takes exactly one from the count. The entry is erased iff the count reaches 0, and otherwise keeps its deadline and the served path. A count of 0 or below is never erased this way |
| RegistryFacts.ConsumeTouchesOnlyId | httpserver.cpp:287-323 | a GET changes no entry but the one it names and adds no key |
| RegistryFacts.DirectoryPackagedOnce | httpserver.cpp:311-316 | the first download rebinds a directory entry to `<temp>/<stem>.tgz` (`..tgz` for a path ending in '/', `.tgz` for the root); the next one sends that archive without packaging again |
| RegistryFacts.ExactlyCountDownloads | httpserver.cpp:321-322 | with count n >= 1 and a path that passes the check, n downloads before the deadline all succeed, and the entry stays until the n-th |
| RegistryFacts.NotFoundAfterLastDownload | httpserver.cpp:321-322 | after the n-th download the id is answered 404 |
| RegistryFacts.CreateRejects | httpserver.cpp:349-350 | a path that fails the check is answered with its status, and nothing is stored |
| RegistryFacts.CreateStores | httpserver.cpp:353-382 | an accepted path is stored under the drawn id, replacing any old entry, with count 1 and the old deadline unless the form overrides them; other entries stay; the answer is 201 and the id |
| RegistryFacts.CreateKeepsValidIds | httpserver.cpp:338-339 | every key stays in the generator's range |
| RegistryFacts.CreateThenGet | httpserver.cpp:382 | a GET of "/" followed by the 201 body, before the deadline, downloads the stored path |
| RegistryFacts.RevokeErases | httpserver.cpp:403-414 | a present id is erased and answered 200; an absent one is answered 404 and nothing changes |
| RegistryFacts.RevokeTwice | httpserver.cpp:403-414 | a second DELETE of the same id is answered 404 |
| RegistryFacts.RemoteCannotAdd | httpserver.cpp:475-487 | a caller not on loopback adds no key and gets no listing; its POST and DELETE change nothing |
| RegistryFacts.ListingSweeps | httpserver.cpp:444-470 | the listing erases exactly the expired entries and keeps the others unchanged. It lists each survivor once, in ascending id order, and never shows a passed deadline |
| RegistryFacts.DispatchKeepsValidIds | httpserver.cpp:424-493 | no request puts a key outside the generator's range |
| Transfer.Deadline | easytransfer.cpp:399-400 | the deadline is at least 60 times the start time and less than that plus 2^32 |
| Transfer.Transfer.constructor | easytransfer.cpp:397-400 | the globals are set up as main sets them |
| Transfer.Transfer.HandleGet | easytransfer.cpp:277-329 | handle_get's response, new globals and filesystem are those of `Get` |
| Transfer.Transfer.Callback | easytransfer.cpp:333-359 | only GET is handled, and SIGTERM is raised exactly when `quit` is set afterwards |
| TransferFacts.WrongIdEndsProgram | easytransfer.cpp:285-290 | another id is answered 404 and sets `quit`; count, path and deadline are unchanged |
| TransferFacts.ExpiredIsGone | easytransfer.cpp:300-305 | past the deadline the answer is 410 and `quit` is set; count and path are unchanged |
| TransferFacts.FailedCheckStillSent | easytransfer.cpp:296-321 | a failing path check sets `quit`, but before the deadline `mg_send_file` is still called on the unchanged path and the count drops by one |
| TransferFacts.SendCountsDown | easytransfer.cpp:306-321 | a download takes exactly one from the count. Afterwards `quit` is set iff it was set already, the check failed, or the count reached 0. A count of 0 or below never reaches 0 |
| TransferFacts.QuitIsSticky | easytransfer.cpp:350-356 | SIGTERM follows exactly when `quit` is set, and once set, `quit` stays set |
| TransferFacts.OnlyGetChangesState | easytransfer.cpp:350-351 | any method but GET changes nothing |
| TransferFacts.DirectoryPackagedOnce | easytransfer.cpp:309-315 | a shared directory is packaged once into `<temp>/<stem>.tgz` (`..tgz` for a path ending in '/', `.tgz` for the root), and the next download sends that archive |
| TransferFacts.NonNumericPathMatchesInitialId | easytransfer.cpp:281-285 | a path with no digit after '/' names the shared file, because the id is 0 |
| TransferFacts.DefaultCountSingleDownload | easytransfer.cpp:378 | with the default count of 1, the first download before the deadline sends the shared path, leaves the count at 0 and ends the program |
| TransferFacts.DefaultDeadline | easytransfer.cpp:399-400 | with the default 60 minutes the deadline is 60 times the start time, plus 3600 |
| TransferFacts.DurationWraps | easytransfer.cpp:399 | 71582789 minutes wrap to 44 seconds |
| TransferFacts.NotExpiredUntilSixtyfold | easytransfer.cpp:399-400 | no request up to 60 times the start time is refused as expired |
| TransferFacts.QuitsAfterCount | easytransfer.cpp:319-320 | with count n >= 1, each of n downloads takes one from the count, and `quit` is set by the n-th and by no earlier one |
| TransferFacts.SameRuleAsRegistry | easytransfer.cpp:277-329 | this GET answers as the registry's rule does for a one-entry map and leaves the same count and path, except that on a failing path `mg_send_file` is still called here |

## Left out

- UPnP discovery and port mapping, signal handlers, `sleep`, `exit` and `raise`:
  process and network plumbing. `raise(SIGTERM)` is modelled only as the
  `terminate` result of the callback.
- Option parsing, the help text, `absolute()`, main's start-up `check_path`, WSAStartup
  and the settings file: these are command-line and I/O glue. The constructor takes
  the parsed path, count and duration.
- The inside of `compress_directory`: the libarchive calls, the headers and the read
  loop. The walk over the iterator's entries is kept (`Filesystem.CompressEntries`),
  with the entries in the iterator's order as a parameter. Packaging is modelled by
  its effect, which is a new regular, readable file at the archive path, and the
  entry-name rule is kept as a string function.
- Filesystem.Package: does not model a failure to write the archive, nor the walk as
  written, which never returns when a file under the directory does not open (see
  Findings); packaging always succeeds, as the corrected walk would.
- Paths.EntryNameKeepsLeaf: covers a directory written without a trailing '/'. For
  `photos/`, `parent_path()` is `photos` itself, so both the written and the corrected
  offset store `photos/a.txt` as `a.txt`.
- Exceptions from boost::filesystem. `exists(p)` in `check_path`
  (httpserver.cpp:84, easytransfer.cpp:82) takes no `error_code` and throws
  `filesystem_error` when `stat` fails for a reason other than a missing path (for
  example EACCES on a parent directory); `CheckPath` answers 404, 403 or 400 there
  instead. `is_directory(p)` at httpserver.cpp:311 and easytransfer.cpp:309,
  `temp_directory_path()` at httpserver.cpp:313 and easytransfer.cpp:311, and
  `file_size` inside the walk can throw the same way; the model lets them succeed.
- The empty path: the packaging lemmas require a non-empty directory path, since
  `exists("")` and `is_directory("")` are false and `check_path` answers 404 for it.
- The mongoose transport (`mg_send_file`, `mg_printf`, `mg_read`, `mg_get_var`) and its
  threads. Responses are values. The POST body is modelled as its optional `count` and
  `time` fields, already read by `atoi`. Handlers run one at a time. httpserver
  starts mongoose with one worker thread (httpserver.cpp:550). easytransfer sets no
  thread count (easytransfer.cpp:437-442), so mongoose's default pool can run two
  GETs at once against `count`, `the_path` and `quit`; that concurrency is not
  modelled.
- Mongoose events other than a new request: the callback returns at once for those,
  without touching state.
- The listing's bytes. The `%s` given an `int` count is undefined behaviour, so the
  model lists rows of values instead.
- The body of the DELETE answer. The format at httpserver.cpp:417-419 has two `%s`
  and one argument, so the body reads a missing argument, which is undefined
  behaviour. The model answers with the status line and an empty body.
- What happens after `lexical_cast` throws at httpserver.cpp:283 (GET),
  httpserver.cpp:400 (DELETE) and easytransfer.cpp:281: the `bad_lexical_cast` escapes
  the handler and the mongoose
  callback, which is C code, so no answer is written and the process typically
  terminates. The model answers `Aborted` and changes nothing.
- The mt19937 generator: the model makes a nondeterministic choice in its range.
- Windows paths, the `to_utf8` and `FOPEN` shims, and the `uri + 1` POST path on
  Windows. Paths are POSIX, with '/' as the only separator.
- Runs of repeated separators. The path functions do not collapse them the way boost
  does.
- The 32-bit `int` count and the 64-bit `time_t`. Both are unbounded integers here, so
  `--count` wrapping past INT_MIN and overflow of `now * 60` are not modelled.
  Only the unsigned 32-bit duration product wraps.
- share.rb, a client script.

## Findings

| source | as written | input that shows it | evidently intended | confidence | as-written member | corrected member |
|---|---|---|---|---|---|---|
| httpserver.cpp:230-246 | archive entry names drop as many leading characters of each file path as the length of `parent_path()` plus one | sharing the directory "/tmp" (parent "/"): "/tmp/a.txt" is stored as "mp/a.txt" | drop the parent and exactly one separator, so every entry starts with the directory's own name ("tmp/a.txt") | high; not executed | Paths.EntryNameAsWrittenTopLevel | Paths.EntryNameKeepsLeaf |
| httpserver.cpp:252-258 | a file that does not open is logged and the loop `continue`s without `++iter`, so the same file is tried again forever (easytransfer.cpp:250-256 is the same) | sharing a directory that holds a file without read permission: `check_path` accepts any directory, and the first GET never returns | skip that file and go on with the next entry | high; not executed | Filesystem.StuckBeforeUnreadable | Filesystem.CompressEntries |
