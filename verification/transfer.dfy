/**
 * The single-resource server: one path, offered under one id for a number of downloads
 * until a deadline, and a `quit` flag that makes the process stop after the request
 * that raised it.
 *
 * The globals the_path, the_uuid, count, expiration_time and quit are the fields of the
 * class Transfer; the GET handler and the request callback are its methods, each
 * specified by a function from the old state to the response and the new state.
 */
module Transfer {
  import opened Wrappers
  import opened Paths
  import opened Http
  import opened Filesystem

  /** One more than the largest unsigned int. */
  const U32_LIMIT: nat := 0x1_0000_0000

  /** The --count and --duration defaults. */
  const DEFAULT_COUNT: int := 1
  const DEFAULT_MINUTES: nat := 60

  /**
   * The deadline main computes from the clock reading at start-up and --duration in
   * minutes. The product minutes * 60 is taken in unsigned int, so it wraps modulo 2^32;
   * the clock reading is multiplied by 60 as well, exactly as the program does.
   */
  function Deadline(now: int, minutes: nat): (d: int)
    requires minutes < U32_LIMIT
    ensures now * 60 <= d < now * 60 + U32_LIMIT
  {
    now * 60 + (minutes * 60) % U32_LIMIT
  }

  datatype Globals = Globals(path: Path, uuid: nat, count: int, deadline: int, quit: bool)

  /** The state main sets up: the_uuid keeps its static initial value 0. */
  function Start(path: Path, count: int, now: int, minutes: nat): Globals
    requires minutes < U32_LIMIT
  {
    Globals(path, 0, count, Deadline(now, minutes), false)
  }

  /** What the GET handler answers and the state it leaves behind. */
  datatype Step = Step(response: Response, state: Globals, fs: Fs)

  /**
   * handle_get: a wrong id is answered 404 and ends the program. For the right id, a
   * failing path check ends the program but does not stop the request; a passed deadline
   * is answered 410 and ends the program; otherwise a directory is packaged (and the
   * path rebound to the archive), the file is sent, the count goes down by one, and the
   * program ends when it reaches zero.
   */
  function Get(s: Globals, uri: string, now: int, fs: Fs, tempDir: Path): Step {
    match ParseId(uri)
    case None => Step(Aborted, s, fs)
    case Some(id) =>
      if id != s.uuid then Step(Reply(NOT_FOUND, ""), s.(quit := true), fs)
      else
        var quit := s.quit || CheckPath(fs, s.path) != "";
        if s.deadline < now then Step(Reply(GONE, ""), s.(quit := true), fs)
        else
          var path := ServedPath(fs, s.path, tempDir);
          var count := s.count - 1;
          Step(SendFile(path),
               s.(path := path, count := count, quit := quit || count == 0),
               ServedFs(fs, s.path, tempDir))
  }

  /** What a request leads to: the handler's step, and whether SIGTERM is raised after it. */
  datatype Reaction = Reaction(response: Response, state: Globals, fs: Fs, terminate: bool)

  /** callback: only GET is handled; afterwards the process is told to stop if `quit` is set. */
  function Dispatch(s: Globals, verb: string, uri: string, now: int, fs: Fs, tempDir: Path): Reaction {
    if verb == "GET" then
      var step := Get(s, uri, now, fs, tempDir);
      Reaction(step.response, step.state, step.fs, step.state.quit)
    else Reaction(Silent, s, fs, s.quit)
  }

  /** The program's globals, with the GET handler and the callback as methods. */
  class Transfer {
    var path: Path
    var uuid: nat
    var count: int
    var deadline: int
    var quit: bool

    function Current(): Globals
      reads this
    {
      Globals(path, uuid, count, deadline, quit)
    }

    /** main, from the parsed options to the started server. */
    constructor (p: Path, downloads: int, now: int, minutes: nat)
      requires minutes < U32_LIMIT
      ensures Current() == Start(p, downloads, now, minutes)
    {
      path := p;
      uuid := 0;
      count := downloads;
      var duration := (minutes * 60) % U32_LIMIT;
      deadline := now * 60 + duration;
      quit := false;
    }

    /** handle_get */
    method HandleGet(uri: string, now: int, fs: Fs, tempDir: Path) returns (response: Response, fs': Fs)
      modifies this
      ensures Step(response, Current(), fs') == Get(old(Current()), uri, now, fs, tempDir)
    {
      fs' := fs;
      var parsed := ParseId(uri);
      if parsed.None? {
        return Aborted, fs;
      }
      if parsed.value != uuid {
        response := Reply(NOT_FOUND, "");
        quit := true;
        return;
      }
      var status := CheckPath(fs, path);
      if status != "" {
        quit := true;
      }
      if deadline < now {
        response := Reply(GONE, "");
        quit := true;
      } else {
        path, fs' := Prepare(path, fs, tempDir);
        response := SendFile(path);
        count := count - 1;
        if count == 0 {
          quit := true;
        }
      }
    }

    /** callback, for a new request; `terminate` is whether SIGTERM is raised. */
    method Callback(verb: string, uri: string, now: int, fs: Fs, tempDir: Path)
      returns (response: Response, fs': Fs, terminate: bool)
      modifies this
      ensures Reaction(response, Current(), fs', terminate) == Dispatch(old(Current()), verb, uri, now, fs, tempDir)
    {
      response, fs' := Silent, fs;
      if verb == "GET" {
        response, fs' := HandleGet(uri, now, fs, tempDir);
      }
      terminate := quit;
    }
  }
}
