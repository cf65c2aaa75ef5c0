/**
 * The resource registry of the multi-resource server: a map from a random 64-bit id to
 * a (path, remaining count, deadline) triple, and the four request handlers that change
 * it (consume, create, revoke, and the loopback listing that first sweeps out expired
 * entries).
 *
 * Each handler is specified by a function from the old map (and the filesystem, the
 * clock reading, the chosen id) to the response and the new map; the class Server holds
 * the map and updates it in place as the handlers do.
 */
module Registry {
  import opened Wrappers
  import opened Paths
  import opened Decimal
  import opened Http
  import opened Filesystem

  /** The closed range uniform_int draws ids from. */
  const MIN_ID: nat := 0x1_0000_0000
  const MAX_ID: nat := 0x4000_0000_0000_0000

  /** Downloads allowed when the form does not say. */
  const DEFAULT_COUNT: int := 1

  /** One published resource. The count and the deadline are whatever the form set. */
  datatype Resource = Resource(path: Path, count: int, deadline: int)

  type Mappings = map<nat, Resource>

  /** The optional `count` and `time` fields of a POST body, already read by atoi. */
  datatype Form = Form(count: Option<int>, time: Option<int>)

  datatype Request = Request(verb: string, uri: string, remoteIp: nat, form: Form)

  /** What a handler answers and the state it leaves behind. */
  datatype Outcome = Outcome(response: Response, mappings: Mappings, fs: Fs)

  /** The same, for handlers that only read the filesystem. */
  datatype Update = Update(response: Response, mappings: Mappings)

  /** Every id in the map was drawn from the generator's range. */
  predicate ValidIds(m: Mappings) {
    forall id :: id in m ==> MIN_ID <= id <= MAX_ID
  }

  /** The deadline has passed (strictly) at clock reading `now`. */
  predicate Expired(r: Resource, now: int) {
    r.deadline < now
  }

  /**
   * handle_get once the id is known: answer 404 for an unknown id; erase the entry and
   * answer check_path's status if its path no longer passes; erase it and answer 410 if
   * its deadline has passed; otherwise package a directory (rebinding the entry's path
   * to the archive), send the file, and take one from the count, erasing the entry when
   * the count reaches zero.
   */
  function Consume(m: Mappings, id: nat, now: int, fs: Fs, tempDir: Path): Outcome {
    if id !in m then Outcome(Reply(NOT_FOUND, ""), m, fs)
    else
      var res := m[id];
      var status := CheckPath(fs, res.path);
      if status != "" then Outcome(Reply(status, ""), m - {id}, fs)
      else if Expired(res, now) then Outcome(Reply(GONE, ""), m - {id}, fs)
      else
        var path := ServedPath(fs, res.path, tempDir);
        var count := res.count - 1;
        Outcome(SendFile(path),
                if count == 0 then m - {id} else m[id := Resource(path, count, res.deadline)],
                ServedFs(fs, res.path, tempDir))
  }

  /** handle_get: read the id from the request path, then consume it. */
  function Get(m: Mappings, uri: string, now: int, fs: Fs, tempDir: Path): Outcome {
    match ParseId(uri)
    case None => Outcome(Aborted, m, fs)
    case Some(id) => Consume(m, id, now, fs, tempDir)
  }

  /**
   * handle_post with `uuid` as the generator's draw: a path check_path rejects is
   * answered with its status; otherwise the entry is stored under `uuid` (replacing any
   * entry already there) with count 1 and the deadline `stale` (the uninitialised
   * time_t) unless the form overrides them, and the id is answered in decimal.
   */
  function Create(m: Mappings, uri: string, form: Form, uuid: nat, now: int, stale: int, fs: Fs): Update {
    var status := CheckPath(fs, uri);
    if status != "" then Update(Reply(status, ""), m)
    else
      var count := if form.count.Some? then form.count.value else DEFAULT_COUNT;
      var deadline := if form.time.Some? then now + form.time.value else stale;
      Update(Reply(CREATED, Digits(uuid)), m[uuid := Resource(uri, count, deadline)])
  }

  /**
   * handle_delete: erase the entry and answer 200, or answer 404. The body comes from a
   * second `%s` that is given no argument, so it is left empty here.
   */
  function Revoke(m: Mappings, uri: string): Update {
    match ParseId(uri)
    case None => Update(Aborted, m)
    case Some(id) =>
      if id in m then Update(Reply(OK, ""), m - {id})
      else Update(Reply(NOT_FOUND, ""), m)
  }

  /** The entries the listing keeps: those whose deadline has not passed. */
  function Sweep(m: Mappings, now: int): (r: Mappings)
    ensures forall id :: id in r <==> id in m && !Expired(m[id], now)
    ensures forall id :: id in r ==> r[id] == m[id]
  {
    map id | id in m && !Expired(m[id], now) :: m[id]
  }

  /** Every nonempty set of ids has a least element. */
  lemma {:induction false} HasLeast(s: set<nat>)
    requires s != {}
    ensures exists least :: IsLeast(least, s)
  {
    var y :| y in s;
    var rest := s - {y};
    if rest == {} {
      assert s == {y};
      assert IsLeast(y, s);
    } else {
      HasLeast(rest);
      var least :| IsLeast(least, rest);
      var m := if y < least then y else least;
      forall x | x in s
        ensures m <= x
      {
        if x != y {
          assert x in rest;
        }
      }
      assert IsLeast(m, s);
    }
  }

  predicate IsLeast(m: nat, s: set<nat>) {
    m in s && forall x :: x in s ==> m <= x
  }

  /** The least id of a nonempty set. */
  function Least(s: set<nat>): (m: nat)
    requires s != {}
    ensures m in s && forall x :: x in s ==> m <= x
  {
    HasLeast(s);
    var m :| IsLeast(m, s);
    m
  }

  /** `r` lists exactly the ids of `s`, each once, in ascending order. */
  predicate ListsInOrder(r: seq<nat>, s: set<nat>) {
    && |r| == |s|
    && (forall i :: 0 <= i < |r| ==> r[i] in s)
    && (forall id :: id in s ==> id in r)
    && (forall i, j :: 0 <= i < j < |r| ==> r[i] < r[j])
  }

  /** Putting the least id in front of an ordered listing of the others. */
  lemma PrependLeast(least: nat, others: set<nat>, rest: seq<nat>)
    requires least !in others && forall x :: x in others ==> least < x
    requires ListsInOrder(rest, others)
    ensures ListsInOrder([least] + rest, others + {least})
  {
    var r := [least] + rest;
    var s := others + {least};
    assert |s| == |others| + 1;
    forall i | 0 <= i < |r|
      ensures r[i] in s
    {
      if i > 0 {
        assert r[i] == rest[i - 1];
      }
    }
    forall i, j | 0 <= i < j < |r|
      ensures r[i] < r[j]
    {
      assert r[j] == rest[j - 1] && r[j] in others;
      if i > 0 {
        assert r[i] == rest[i - 1];
      }
    }
    forall id | id in s
      ensures id in r
    {
      if id != least {
        var k :| 0 <= k < |rest| && rest[k] == id;
        assert r[k + 1] == id;
      }
    }
  }

  /** The ids of a set in ascending order, as std::map iterates its keys. */
  function SortedIds(s: set<nat>): (r: seq<nat>)
    ensures ListsInOrder(r, s)
    decreases |s|
  {
    if s == {} then []
    else
      var least := Least(s);
      var others := s - {least};
      var rest := SortedIds(others);
      PrependLeast(least, others, rest);
      assert others + {least} == s;
      [least] + rest
  }

  function RowOf(id: nat, r: Resource): Row {
    Row(id, r.count, r.deadline, r.path)
  }

  /** The listing of a map: one row per entry, in ascending id order. */
  function Rows(m: Mappings): seq<Row>
  {
    var ids := SortedIds(m.Keys);
    seq(|ids|, i requires 0 <= i < |ids| => RowOf(ids[i], m[ids[i]]))
  }

  /** Each row of the listing shows an entry of the map as it is. */
  lemma RowsShowEntries(m: Mappings)
    ensures |Rows(m)| == |m|
    ensures forall i :: 0 <= i < |Rows(m)| ==> Rows(m)[i].id in m && Rows(m)[i] == RowOf(Rows(m)[i].id, m[Rows(m)[i].id])
  {
    assert |m.Keys| == |m|;
  }

  /** The listing is in strictly ascending id order. */
  lemma RowsAscending(m: Mappings)
    ensures forall i, j :: 0 <= i < j < |Rows(m)| ==> Rows(m)[i].id < Rows(m)[j].id
  {
    var ids := SortedIds(m.Keys);
    assert forall i :: 0 <= i < |Rows(m)| ==> Rows(m)[i].id == ids[i];
  }

  /** Every entry of the map has a row. */
  lemma RowsComplete(m: Mappings)
    ensures forall id :: id in m ==> exists i :: 0 <= i < |Rows(m)| && Rows(m)[i].id == id
  {
    var ids := SortedIds(m.Keys);
    var r := Rows(m);
    forall id | id in m
      ensures exists i :: 0 <= i < |r| && r[i].id == id
    {
      var i :| 0 <= i < |ids| && ids[i] == id;
      assert r[i].id == id;
    }
  }

  /** A request for the listing: from 127.0.0.1, for "/" with nothing after it. */
  predicate IsListingRequest(req: Request) {
    req.remoteIp == LOOPBACK && |req.uri| < 2
  }

  /**
   * callback: GET is the listing for loopback "/" and a consumption otherwise; POST and
   * DELETE are handled only from loopback and ignored from anywhere else; any other
   * method is ignored.
   */
  function Dispatch(m: Mappings, req: Request, now: int, fs: Fs, tempDir: Path, uuid: nat, stale: int): Outcome {
    if req.verb == "GET" then
      if IsListingRequest(req) then
        var live := Sweep(m, now);
        Outcome(Listing(Rows(live)), live, fs)
      else Get(m, req.uri, now, fs, tempDir)
    else if req.verb == "POST" then
      if req.remoteIp != LOOPBACK then Outcome(Silent, m, fs)
      else
        var u := Create(m, req.uri, req.form, uuid, now, stale, fs);
        Outcome(u.response, u.mappings, fs)
    else if req.verb == "DELETE" then
      if req.remoteIp != LOOPBACK then Outcome(Silent, m, fs)
      else
        var u := Revoke(m, req.uri);
        Outcome(u.response, u.mappings, fs)
    else Outcome(Silent, m, fs)
  }

  /** The server's global `mappings`, with one method per handler. */
  class Server {
    var mappings: Mappings

    ghost predicate Valid()
      reads this
    {
      ValidIds(mappings)
    }

    constructor ()
      ensures Valid() && mappings == map[]
    {
      mappings := map[];
    }

    /** handle_get */
    method HandleGet(uri: string, now: int, fs: Fs, tempDir: Path) returns (response: Response, fs': Fs)
      requires Valid()
      modifies this
      ensures Valid()
      ensures Outcome(response, mappings, fs') == Get(old(mappings), uri, now, fs, tempDir)
    {
      var parsed := ParseId(uri);
      if parsed.None? {
        return Aborted, fs;
      }
      response, fs' := ConsumeId(parsed.value, now, fs, tempDir);
    }

    /** handle_get from the lookup of the id on. */
    method ConsumeId(id: nat, now: int, fs: Fs, tempDir: Path) returns (response: Response, fs': Fs)
      requires Valid()
      modifies this
      ensures Valid()
      ensures Outcome(response, mappings, fs') == Consume(old(mappings), id, now, fs, tempDir)
    {
      fs' := fs;
      if id !in mappings {
        return Reply(NOT_FOUND, ""), fs;
      }
      var resource := mappings[id];
      var status := CheckPath(fs, resource.path);
      if status != "" {
        mappings := mappings - {id};
        response := Reply(status, "");
      } else if resource.deadline < now {
        mappings := mappings - {id};
        response := Reply(GONE, "");
      } else {
        response, fs' := Serve(id, fs, tempDir);
      }
    }

    /** The sending branch of handle_get: package a directory, send, count down. */
    method Serve(id: nat, fs: Fs, tempDir: Path) returns (response: Response, fs': Fs)
      requires Valid() && id in mappings
      modifies this
      ensures Valid()
      ensures var res := old(mappings)[id];
              var path := ServedPath(fs, res.path, tempDir);
              && response == SendFile(path)
              && fs' == ServedFs(fs, res.path, tempDir)
              && mappings == if res.count - 1 == 0 then old(mappings) - {id}
                             else old(mappings)[id := Resource(path, res.count - 1, res.deadline)]
    {
      var resource := mappings[id];
      var p;
      p, fs' := Prepare(resource.path, fs, tempDir);
      resource := resource.(path := p);
      response := SendFile(p);
      resource := resource.(count := resource.count - 1);
      mappings := mappings[id := resource];
      if resource.count == 0 {
        mappings := mappings - {id};
        assert mappings == old(mappings) - {id};
      }
    }

    /** handle_post; `uuid` is the id the generator drew. */
    method HandlePost(uri: string, form: Form, now: int, stale: int, fs: Fs) returns (response: Response, ghost uuid: nat)
      requires Valid()
      modifies this
      ensures Valid()
      ensures MIN_ID <= uuid <= MAX_ID
      ensures Update(response, mappings) == Create(old(mappings), uri, form, uuid, now, stale, fs)
    {
      uuid := MIN_ID;
      var status := CheckPath(fs, uri);
      if status == "" {
        var id: nat :| MIN_ID <= id <= MAX_ID;
        uuid := id;
        var resource := Resource(uri, DEFAULT_COUNT, stale);
        if form.count.Some? {
          resource := resource.(count := form.count.value);
        }
        if form.time.Some? {
          resource := resource.(deadline := now + form.time.value);
        }
        mappings := mappings[id := resource];
        response := Reply(CREATED, Digits(id));
      } else {
        response := Reply(status, "");
      }
    }

    /** handle_delete */
    method HandleDelete(uri: string) returns (response: Response)
      requires Valid()
      modifies this
      ensures Valid()
      ensures Update(response, mappings) == Revoke(old(mappings), uri)
    {
      var parsed := ParseId(uri);
      if parsed.None? {
        return Aborted;
      }
      var id := parsed.value;
      if id !in mappings {
        response := Reply(NOT_FOUND, "");
      } else {
        mappings := mappings - {id};
        response := Reply(OK, "");
      }
    }

    /** The first loop of the listing: the expired ids, in id order. */
    method ExpiredIds(now: int) returns (expired: seq<nat>)
      ensures forall id :: id in expired <==> id in mappings && Expired(mappings[id], now)
    {
      var m := mappings;
      var ids := SortedIds(m.Keys);
      expired := [];
      var i := 0;
      while i < |ids|
        invariant 0 <= i <= |ids|
        invariant forall id :: id in expired ==> id in m && Expired(m[id], now)
        invariant forall k :: 0 <= k < i ==> Expired(m[ids[k]], now) ==> ids[k] in expired
      {
        var id := ids[i];
        if m[id].deadline < now {
          expired := expired + [id];
        }
        i := i + 1;
      }
    }

    /** The last loop of the listing: one row per entry, in id order. */
    method ListRows() returns (rows: seq<Row>)
      ensures rows == Rows(mappings)
    {
      var m := mappings;
      var ids := SortedIds(m.Keys);
      rows := [];
      var n := 0;
      while n < |ids|
        invariant 0 <= n <= |ids|
        invariant |rows| == n
        invariant forall k :: 0 <= k < n ==> rows[k] == RowOf(ids[k], m[ids[k]])
      {
        rows := rows + [RowOf(ids[n], m[ids[n]])];
        n := n + 1;
      }
      assert |rows| == |Rows(m)|;
      assert forall k :: 0 <= k < |rows| ==> rows[k] == Rows(m)[k];
    }

    /**
     * The listing branch of callback: collect the expired ids, erase them, then list
     * what is left.
     */
    method SweepAndList(now: int) returns (rows: seq<Row>)
      requires Valid()
      modifies this
      ensures Valid()
      ensures mappings == Sweep(old(mappings), now)
      ensures rows == Rows(mappings)
    {
      var expired := ExpiredIds(now);
      var j := 0;
      while j < |expired|
        invariant 0 <= j <= |expired|
        invariant mappings.Keys == old(mappings).Keys - set k | k in expired[..j]
        invariant forall id :: id in mappings ==> mappings[id] == old(mappings)[id]
      {
        assert expired[..j + 1] == expired[..j] + [expired[j]];
        mappings := mappings - {expired[j]};
        j := j + 1;
      }
      assert expired[..j] == expired;
      assert mappings == Sweep(old(mappings), now);
      rows := ListRows();
    }

    /** callback, for a new request; `uuid` is the generator's draw if a POST is handled. */
    method Callback(req: Request, now: int, fs: Fs, tempDir: Path, stale: int)
      returns (response: Response, fs': Fs, ghost uuid: nat)
      requires Valid()
      modifies this
      ensures Valid()
      ensures MIN_ID <= uuid <= MAX_ID
      ensures Outcome(response, mappings, fs') == Dispatch(old(mappings), req, now, fs, tempDir, uuid, stale)
    {
      fs', uuid := fs, MIN_ID;
      if req.verb == "GET" {
        if req.remoteIp == LOOPBACK && |req.uri| < 2 {
          var rows := SweepAndList(now);
          response := Listing(rows);
        } else {
          response, fs' := HandleGet(req.uri, now, fs, tempDir);
        }
      } else if req.verb == "POST" {
        if req.remoteIp != LOOPBACK {
          response := Silent;
        } else {
          response, uuid := HandlePost(req.uri, req.form, now, stale, fs);
        }
      } else if req.verb == "DELETE" {
        if req.remoteIp != LOOPBACK {
          response := Silent;
        } else {
          response := HandleDelete(req.uri);
        }
      } else {
        response := Silent;
      }
    }
  }
}
