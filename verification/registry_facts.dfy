/**
 * What the registry promises across its handlers: how a GET answers and what it does to
 * the entry it names (and to no other), that a published resource can be downloaded
 * exactly `count` times, that the id a POST answers with reads back to the entry it
 * stored, that DELETE and the listing remove what they should, and that a caller that
 * is not on the loopback address cannot add or remove anything but by downloading.
 */
module RegistryFacts {
  import opened Wrappers
  import opened Paths
  import opened Decimal
  import opened Http
  import opened Filesystem
  import opened Registry

  // ---------------------------------------------------------------------------
  // GET

  /** An id that is not in the map is answered 404 and changes nothing. */
  lemma UnknownIdNotFound(m: Mappings, id: nat, now: int, fs: Fs, tempDir: Path)
    requires id !in m
    ensures Consume(m, id, now, fs, tempDir) == Outcome(Reply(NOT_FOUND, ""), m, fs)
  {
  }

  /**
   * A request path without a digit after the '/' reads as id 0, which the generator
   * never draws, so it is answered 404 and changes nothing.
   */
  lemma NonNumericNotFound(m: Mappings, uri: string, now: int, fs: Fs, tempDir: Path)
    requires ValidIds(m)
    requires |uri| < 2 || !IsDigit(uri[1])
    ensures Get(m, uri, now, fs, tempDir) == Outcome(Reply(NOT_FOUND, ""), m, fs)
  {
    assert 0 !in m;
  }

  /**
   * An entry whose path no longer passes check_path is erased, and the answer is
   * check_path's own status, never 410, whatever the deadline.
   */
  lemma FailedCheckErases(m: Mappings, id: nat, now: int, fs: Fs, tempDir: Path)
    requires id in m && CheckPath(fs, m[id].path) != ""
    ensures var r := Consume(m, id, now, fs, tempDir);
            && r.response == Reply(CheckPath(fs, m[id].path), "")
            && r.response.status in {NOT_FOUND, FORBIDDEN, BAD_REQUEST}
            && r.mappings == m - {id}
            && r.fs == fs
  {
  }

  /** An entry past its deadline (strictly) is erased and answered 410. */
  lemma ExpiredErased(m: Mappings, id: nat, now: int, fs: Fs, tempDir: Path)
    requires id in m && CheckPath(fs, m[id].path) == "" && m[id].deadline < now
    ensures Consume(m, id, now, fs, tempDir) == Outcome(Reply(GONE, ""), m - {id}, fs)
  {
  }

  /**
   * A download takes exactly one from the count. The entry is erased exactly when the
   * count reaches zero, and otherwise keeps its deadline and is rebound to the path
   * that was sent; an entry whose count was zero or below is never erased this way.
   */
  lemma ConsumeCountsDown(m: Mappings, id: nat, now: int, fs: Fs, tempDir: Path)
    requires id in m && CheckPath(fs, m[id].path) == "" && now <= m[id].deadline
    ensures var r := Consume(m, id, now, fs, tempDir);
            var sent := ServedPath(fs, m[id].path, tempDir);
            && r.response == SendFile(sent)
            && r.fs == ServedFs(fs, m[id].path, tempDir)
            && (id in r.mappings <==> m[id].count != 1)
            && (id in r.mappings ==> r.mappings[id] == Resource(sent, m[id].count - 1, m[id].deadline))
            && (m[id].count <= 0 ==> id in r.mappings)
  {
  }

  /** A GET changes at most the entry it names. */
  lemma ConsumeTouchesOnlyId(m: Mappings, id: nat, now: int, fs: Fs, tempDir: Path)
    ensures var r := Consume(m, id, now, fs, tempDir);
            && r.mappings.Keys <= m.Keys
            && forall other :: other != id ==>
                 (other in r.mappings <==> other in m) && (other in m ==> r.mappings[other] == m[other])
  {
  }

  /**
   * A directory is packaged by its first download only: the entry is rebound to the
   * archive `<tempDir>/<stem>.tgz` (".tgz" for the root, "..tgz" for a path ending in
   * '/'), which later downloads send without packaging again.
   */
  lemma {:induction false} DirectoryPackagedOnce(m: Mappings, id: nat, now1: int, now2: int, fs: Fs, tempDir: Path)
    requires id in m && IsDirectory(fs, m[id].path) && m[id].path != []
    requires m[id].count != 1 && now1 <= m[id].deadline && now2 <= m[id].deadline
    ensures var r1 := Consume(m, id, now1, fs, tempDir);
            && id in r1.mappings
            && var archive := r1.mappings[id].path;
               var r2 := Consume(r1.mappings, id, now2, r1.fs, tempDir);
               && archive == PackagedPath(tempDir, m[id].path)
               && Filename(archive) == ArchiveName(m[id].path)
               && !IsDirectory(r1.fs, archive)
               && r2.response == SendFile(archive)
               && r2.fs == r1.fs
  {
    ConsumeCountsDown(m, id, now1, fs, tempDir);
    ServeOnce(fs, m[id].path, tempDir);
    var r1 := Consume(m, id, now1, fs, tempDir);
    ConsumeCountsDown(r1.mappings, id, now2, r1.fs, tempDir);
    PackagedPathName(tempDir, m[id].path);
  }

  /** GETs of one id at the clock readings `times`, one after the other; the last one's outcome. */
  function ConsumeAll(m: Mappings, id: nat, times: seq<int>, fs: Fs, tempDir: Path): Outcome
    decreases |times|
  {
    if times == [] then Outcome(Silent, m, fs)
    else
      var r := Consume(m, id, times[0], fs, tempDir);
      if |times| == 1 then r else ConsumeAll(r.mappings, id, times[1..], r.fs, tempDir)
  }

  /**
   * An entry published with count n >= 1, downloaded before its deadline, serves n
   * downloads: each of them sends the file, the entry stays until the n-th, and after
   * the n-th the id is answered 404.
   */
  lemma {:induction false} ExactlyCountDownloads(m: Mappings, id: nat, times: seq<int>, fs: Fs, tempDir: Path)
    requires id in m && CheckPath(fs, m[id].path) == ""
    requires 1 <= |times| <= m[id].count
    requires forall i :: 0 <= i < |times| ==> times[i] <= m[id].deadline
    ensures var r := ConsumeAll(m, id, times, fs, tempDir);
            && r.response.SendFile?
            && (id in r.mappings <==> |times| < m[id].count)
            && (id in r.mappings ==>
                  r.mappings[id].count == m[id].count - |times| && r.mappings[id].deadline == m[id].deadline
                  && CheckPath(r.fs, r.mappings[id].path) == "")
    decreases |times|
  {
    var r := Consume(m, id, times[0], fs, tempDir);
    ConsumeCountsDown(m, id, times[0], fs, tempDir);
    ServeOnce(fs, m[id].path, tempDir);
    if |times| > 1 {
      ExactlyCountDownloads(r.mappings, id, times[1..], r.fs, tempDir);
    }
  }

  /** Once the last download is taken the id is answered 404. */
  lemma {:induction false} NotFoundAfterLastDownload(m: Mappings, id: nat, times: seq<int>, now: int, fs: Fs, tempDir: Path)
    requires id in m && CheckPath(fs, m[id].path) == ""
    requires |times| == m[id].count >= 1
    requires forall i :: 0 <= i < |times| ==> times[i] <= m[id].deadline
    ensures var r := ConsumeAll(m, id, times, fs, tempDir);
            Consume(r.mappings, id, now, r.fs, tempDir).response == Reply(NOT_FOUND, "")
  {
    ExactlyCountDownloads(m, id, times, fs, tempDir);
  }

  // ---------------------------------------------------------------------------
  // POST

  /** A path check_path rejects is answered with its status and stores nothing. */
  lemma CreateRejects(m: Mappings, uri: string, form: Form, uuid: nat, now: int, stale: int, fs: Fs)
    requires CheckPath(fs, uri) != ""
    ensures Create(m, uri, form, uuid, now, stale, fs) == Update(Reply(CheckPath(fs, uri), ""), m)
  {
  }

  /**
   * An accepted path is stored under the drawn id, replacing whatever was there, with
   * count 1 and the deadline left as it was unless the form gives them; every other
   * entry stays; the answer is 201 with the id in decimal.
   */
  lemma CreateStores(m: Mappings, uri: string, form: Form, uuid: nat, now: int, stale: int, fs: Fs)
    requires CheckPath(fs, uri) == ""
    ensures var r := Create(m, uri, form, uuid, now, stale, fs);
            && r.response == Reply(CREATED, Digits(uuid))
            && r.mappings.Keys == m.Keys + {uuid}
            && r.mappings[uuid].path == uri
            && r.mappings[uuid].count == (if form.count.Some? then form.count.value else 1)
            && r.mappings[uuid].deadline == (if form.time.Some? then now + form.time.value else stale)
            && (forall other :: other in m && other != uuid ==> r.mappings[other] == m[other])
  {
  }

  /** Drawn ids keep every key in the generator's range. */
  lemma CreateKeepsValidIds(m: Mappings, uri: string, form: Form, uuid: nat, now: int, stale: int, fs: Fs)
    requires ValidIds(m) && MIN_ID <= uuid <= MAX_ID
    ensures ValidIds(Create(m, uri, form, uuid, now, stale, fs).mappings)
  {
  }

  /**
   * The body of a 201 names the new entry: a GET of "/" followed by it, before the
   * deadline, downloads the stored path.
   */
  lemma {:induction false} CreateThenGet(m: Mappings, uri: string, form: Form, uuid: nat, now: int, stale: int,
                                         later: int, fs: Fs, tempDir: Path)
    requires MIN_ID <= uuid <= MAX_ID && CheckPath(fs, uri) == ""
    requires later <= Create(m, uri, form, uuid, now, stale, fs).mappings[uuid].deadline
    ensures var c := Create(m, uri, form, uuid, now, stale, fs);
            && c.response.Reply? && c.response.status == CREATED
            && Get(c.mappings, "/" + c.response.body, later, fs, tempDir).response == SendFile(ServedPath(fs, uri, tempDir))
  {
    ParseIdRoundTrip(uuid);
    var c := Create(m, uri, form, uuid, now, stale, fs);
    assert c.response.body == Digits(uuid);
    ConsumeCountsDown(c.mappings, uuid, later, fs, tempDir);
  }

  // ---------------------------------------------------------------------------
  // DELETE

  /** A present id is erased and answered 200; an absent one is answered 404 and nothing changes. */
  lemma RevokeErases(m: Mappings, uri: string, id: nat)
    requires ParseId(uri) == Some(id)
    ensures var r := Revoke(m, uri);
            && (id in m ==> r == Update(Reply(OK, ""), m - {id}))
            && (id !in m ==> r == Update(Reply(NOT_FOUND, ""), m))
  {
  }

  /** Revoking twice: the second DELETE of the same id is answered 404. */
  lemma {:induction false} RevokeTwice(m: Mappings, uri: string)
    requires ParseId(uri).Some?
    ensures var once := Revoke(m, uri);
            var twice := Revoke(once.mappings, uri);
            twice == Update(Reply(NOT_FOUND, ""), once.mappings) && twice.mappings == m - {ParseId(uri).value}
  {
    var id := ParseId(uri).value;
    RevokeErases(m, uri, id);
    RevokeErases(Revoke(m, uri).mappings, uri, id);
  }

  // ---------------------------------------------------------------------------
  // callback

  /**
   * A caller not on the loopback address gets no listing and is ignored on POST and
   * DELETE; the most it can do is download, which never adds a key.
   */
  lemma {:induction false} RemoteCannotAdd(m: Mappings, req: Request, now: int, fs: Fs, tempDir: Path, uuid: nat, stale: int)
    requires req.remoteIp != LOOPBACK
    ensures var r := Dispatch(m, req, now, fs, tempDir, uuid, stale);
            && r.mappings.Keys <= m.Keys
            && !r.response.Listing?
            && (req.verb != "GET" ==> r == Outcome(Silent, m, fs))
  {
    if req.verb == "GET" {
      match ParseId(req.uri)
      case None =>
      case Some(id) => ConsumeTouchesOnlyId(m, id, now, fs, tempDir);
    }
  }

  /**
   * The loopback listing erases exactly the entries whose deadline has passed, keeps
   * the others as they are, and lists every survivor once, in ascending id order.
   */
  lemma {:induction false} ListingSweeps(m: Mappings, req: Request, now: int, fs: Fs, tempDir: Path, uuid: nat, stale: int)
    requires req.verb == "GET" && IsListingRequest(req)
    ensures var r := Dispatch(m, req, now, fs, tempDir, uuid, stale);
            && r.fs == fs
            && (forall id :: id in r.mappings <==> id in m && m[id].deadline >= now)
            && (forall id :: id in r.mappings ==> r.mappings[id] == m[id])
            && r.response.Listing?
            && |r.response.rows| == |r.mappings|
            && (forall i :: 0 <= i < |r.response.rows| ==>
                  var row := r.response.rows[i];
                  row.id in r.mappings && row.deadline >= now && row == RowOf(row.id, m[row.id]))
            && (forall i, j :: 0 <= i < j < |r.response.rows| ==> r.response.rows[i].id < r.response.rows[j].id)
  {
    var live := Sweep(m, now);
    RowsShowEntries(live);
    RowsAscending(live);
  }

  /** Every request keeps the keys in the generator's range. */
  lemma {:induction false} DispatchKeepsValidIds(m: Mappings, req: Request, now: int, fs: Fs, tempDir: Path, uuid: nat, stale: int)
    requires ValidIds(m) && MIN_ID <= uuid <= MAX_ID
    ensures ValidIds(Dispatch(m, req, now, fs, tempDir, uuid, stale).mappings)
  {
    if req.verb == "GET" && !IsListingRequest(req) {
      match ParseId(req.uri)
      case None =>
      case Some(id) => ConsumeTouchesOnlyId(m, id, now, fs, tempDir);
    } else if req.verb == "POST" && req.remoteIp == LOOPBACK {
      CreateKeepsValidIds(m, req.uri, req.form, uuid, now, stale, fs);
    }
  }
}
