/**
 * What the single-resource server promises: which requests end the program, what a
 * download costs, that `quit` is never cleared, and what the deadline formula amounts to.
 */
module TransferFacts {
  import opened Wrappers
  import opened Paths
  import opened Decimal
  import opened Http
  import opened Filesystem
  import opened Transfer
  import Registry

  /** A request for another id is answered 404 and ends the program; nothing else changes. */
  lemma WrongIdEndsProgram(s: Globals, uri: string, now: int, fs: Fs, tempDir: Path)
    requires ParseId(uri).Some? && ParseId(uri).value != s.uuid
    ensures var r := Get(s, uri, now, fs, tempDir);
            && r.response == Reply(NOT_FOUND, "")
            && r.state.quit
            && r.state.count == s.count && r.state.path == s.path && r.state.deadline == s.deadline
            && r.fs == fs
  {
  }

  /** Past the deadline (strictly) the right id is answered 410 and ends the program; nothing is sent. */
  lemma ExpiredIsGone(s: Globals, uri: string, now: int, fs: Fs, tempDir: Path)
    requires ParseId(uri) == Some(s.uuid) && s.deadline < now
    ensures var r := Get(s, uri, now, fs, tempDir);
            && r.response == Reply(GONE, "")
            && r.state.quit
            && r.state.count == s.count && r.state.path == s.path
            && r.fs == fs
  {
  }

  /**
   * A path that no longer passes check_path ends the program, but since nothing stops
   * the request, mg_send_file is still called on the path (as it is) and a download is
   * counted.
   */
  lemma FailedCheckStillSent(s: Globals, uri: string, now: int, fs: Fs, tempDir: Path)
    requires ParseId(uri) == Some(s.uuid) && now <= s.deadline
    requires CheckPath(fs, s.path) != ""
    ensures var r := Get(s, uri, now, fs, tempDir);
            && r.response == SendFile(s.path)
            && r.state.quit
            && r.state.count == s.count - 1 && r.state.path == s.path
            && r.fs == fs
  {
  }

  /**
   * A download before the deadline takes exactly one from the count. Afterwards the
   * program ends exactly when it was already ending, the path check failed, or the
   * count has reached zero; a count that started at zero or below never reaches zero.
   */
  lemma SendCountsDown(s: Globals, uri: string, now: int, fs: Fs, tempDir: Path)
    requires ParseId(uri) == Some(s.uuid) && now <= s.deadline
    ensures var r := Get(s, uri, now, fs, tempDir);
            && r.response == SendFile(r.state.path)
            && r.state.path == ServedPath(fs, s.path, tempDir) && r.fs == ServedFs(fs, s.path, tempDir)
            && r.state.count == s.count - 1
            && r.state.uuid == s.uuid && r.state.deadline == s.deadline
            && (r.state.quit <==> s.quit || CheckPath(fs, s.path) != "" || s.count == 1)
            && (s.count <= 0 ==> (r.state.quit <==> s.quit || CheckPath(fs, s.path) != ""))
  {
  }

  /**
   * callback: SIGTERM follows a request exactly when `quit` is set afterwards, and once
   * set, `quit` stays set whatever the request.
   */
  lemma QuitIsSticky(s: Globals, verb: string, uri: string, now: int, fs: Fs, tempDir: Path)
    ensures var r := Dispatch(s, verb, uri, now, fs, tempDir);
            && r.terminate == r.state.quit
            && (s.quit ==> r.state.quit)
  {
  }

  /** Only GET is handled: any other method changes nothing and sends nothing. */
  lemma OnlyGetChangesState(s: Globals, verb: string, uri: string, now: int, fs: Fs, tempDir: Path)
    requires verb != "GET"
    ensures var r := Dispatch(s, verb, uri, now, fs, tempDir);
            r.response == Silent && r.state == s && r.fs == fs && r.terminate == s.quit
  {
  }

  /**
   * A shared directory is packaged by the first download only: the path is rebound to
   * the archive `<tempDir>/<stem>.tgz` (".tgz" for the root, "..tgz" for a path ending
   * in '/'), and a second download sends that archive again
   * without packaging anything.
   */
  lemma {:induction false} DirectoryPackagedOnce(s: Globals, uri: string, now1: int, now2: int, fs: Fs, tempDir: Path)
    requires ParseId(uri) == Some(s.uuid) && now1 <= s.deadline && now2 <= s.deadline
    requires IsDirectory(fs, s.path) && s.path != []
    ensures var r1 := Get(s, uri, now1, fs, tempDir);
            var r2 := Get(r1.state, uri, now2, r1.fs, tempDir);
            && r1.state.path == PackagedPath(tempDir, s.path)
            && Filename(r1.state.path) == ArchiveName(s.path)
            && !IsDirectory(r1.fs, r1.state.path)
            && r2.response == SendFile(r1.state.path)
            && r2.state.path == r1.state.path
            && r2.fs == r1.fs
  {
    var r1 := Get(s, uri, now1, fs, tempDir);
    SendCountsDown(s, uri, now1, fs, tempDir);
    ServeOnce(fs, s.path, tempDir);
    SendCountsDown(r1.state, uri, now2, r1.fs, tempDir);
    PackagedPathName(tempDir, s.path);
  }

  /**
   * The initial id is 0, which is also what a path without a digit after the '/' reads
   * as: "/" and "/index.html" name the shared file just as "/0" does.
   */
  lemma NonNumericPathMatchesInitialId(p: Path, count: int, start: int, minutes: nat, uri: string,
                                       now: int, fs: Fs, tempDir: Path)
    requires minutes < U32_LIMIT
    requires |uri| < 2 || !IsDigit(uri[1])
    requires now <= Deadline(start, minutes)
    ensures var r := Get(Start(p, count, start, minutes), uri, now, fs, tempDir);
            r.response == SendFile(ServedPath(fs, p, tempDir)) && r.state.count == count - 1
  {
  }

  /**
   * With the default count of 1, the first download before the deadline sends the
   * shared path and ends the program.
   */
  lemma DefaultCountSingleDownload(p: Path, start: int, minutes: nat, uri: string, now: int, fs: Fs, tempDir: Path)
    requires minutes < U32_LIMIT && ParseId(uri) == Some(0) && now <= Deadline(start, minutes)
    ensures var r := Get(Start(p, DEFAULT_COUNT, start, minutes), uri, now, fs, tempDir);
            && r.response == SendFile(ServedPath(fs, p, tempDir))
            && r.state.count == 0
            && r.state.quit
  {
    SendCountsDown(Start(p, DEFAULT_COUNT, start, minutes), uri, now, fs, tempDir);
  }

  /** With the default of 60 minutes the deadline is the start time times 60, plus 3600. */
  lemma DefaultDeadline(start: int)
    ensures Deadline(start, DEFAULT_MINUTES) == start * 60 + 3600
  {
  }

  /** The duration wraps in 32 bits: 71582789 minutes come to 44 seconds. */
  lemma DurationWraps(start: int)
    ensures Deadline(start, 71582789) == start * 60 + 44
  {
  }

  /**
   * Because the start time is multiplied by 60, a link created at time `start` is
   * never refused as expired for any request up to 60 * start, whatever duration was
   * asked for.
   */
  lemma NotExpiredUntilSixtyfold(start: int, minutes: nat, now: int)
    requires minutes < U32_LIMIT && now <= start * 60
    ensures !(Deadline(start, minutes) < now)
  {
  }

  /** GETs of `uri` at the clock readings `times`, one after the other; the last one's answer. */
  function Run(s: Globals, uri: string, times: seq<int>, fs: Fs, tempDir: Path): Step
    decreases |times|
  {
    if times == [] then Step(Silent, s, fs)
    else
      var r := Get(s, uri, times[0], fs, tempDir);
      if |times| == 1 then r else Run(r.state, uri, times[1..], r.fs, tempDir)
  }

  /**
   * Downloads before the deadline, of a path that passes the check, each take one from
   * the count, and the program is told to end by the download that brings the count
   * to zero and by no earlier one: with --count n it serves exactly n downloads.
   */
  lemma {:induction false} QuitsAfterCount(s: Globals, uri: string, times: seq<int>, fs: Fs, tempDir: Path)
    requires ParseId(uri) == Some(s.uuid) && !s.quit && CheckPath(fs, s.path) == ""
    requires 1 <= s.count && |times| <= s.count
    requires forall i :: 0 <= i < |times| ==> times[i] <= s.deadline
    ensures var r := Run(s, uri, times, fs, tempDir);
            && r.state.count == s.count - |times|
            && (r.state.quit <==> |times| == s.count)
            && (times != [] ==> r.response == SendFile(r.state.path))
            && CheckPath(r.fs, r.state.path) == ""
            && r.state.uuid == s.uuid && r.state.deadline == s.deadline
    decreases |times|
  {
    if times != [] {
      var r := Get(s, uri, times[0], fs, tempDir);
      SendCountsDown(s, uri, times[0], fs, tempDir);
      ServeOnce(fs, s.path, tempDir);
      if |times| > 1 {
        QuitsAfterCount(r.state, uri, times[1..], r.fs, tempDir);
      }
    }
  }

  /**
   * The single-resource GET answers as the registry's consumption rule does for a map
   * holding only the shared resource, and a download leaves the same count and path,
   * except for a path that fails check_path: the registry erases the entry and answers
   * with the check's status, while this server still sends it.
   */
  lemma SameRuleAsRegistry(s: Globals, uri: string, now: int, fs: Fs, tempDir: Path)
    requires ParseId(uri) == Some(s.uuid)
    ensures var t := Get(s, uri, now, fs, tempDir);
            var g := Registry.Consume(map[s.uuid := Registry.Resource(s.path, s.count, s.deadline)], s.uuid, now, fs, tempDir);
            && (CheckPath(fs, s.path) == "" ==> t.response == g.response && t.fs == g.fs)
            && (CheckPath(fs, s.path) == "" && now <= s.deadline ==>
                  && (s.uuid in g.mappings <==> t.state.count != 0)
                  && (s.uuid in g.mappings ==>
                        g.mappings[s.uuid] == Registry.Resource(t.state.path, t.state.count, t.state.deadline)))
            && (CheckPath(fs, s.path) != "" && now <= s.deadline ==>
                  && t.response == SendFile(s.path)
                  && g.response == Reply(CheckPath(fs, s.path), "") && g.mappings == map[])
  {
  }
}
