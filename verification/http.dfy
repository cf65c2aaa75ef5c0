/**
 * What the core sees of HTTP: the status lines it answers with, the shapes of its
 * responses, and how the id in a request path is read.
 */
module Http {
  import opened Wrappers
  import opened Decimal
  import opened Paths

  const OK: string := "200 OK"
  const CREATED: string := "201 Created"
  const BAD_REQUEST: string := "400 Bad Request"
  const FORBIDDEN: string := "403 Forbidden"
  const NOT_FOUND: string := "404 Not Found"
  const GONE: string := "410 Gone"

  /** The address mongoose reports for 127.0.0.1. */
  const LOOPBACK: nat := 0x7f000001

  /** One line of the loopback listing: id, remaining count, deadline, path. */
  datatype Row = Row(id: nat, count: int, deadline: int, path: Path)

  datatype Response =
    | Reply(status: string, body: string)   // a status line, text/plain, then `body`
    | SendFile(path: Path)                  // mg_send_file: the bytes at `path`, offered under Filename(path)
    | Listing(rows: seq<Row>)               // "200 OK" and one line per row
    | Silent                                // nothing written by the core
    | Aborted                               // lexical_cast threw on the request path

  /**
   * The id named by a request path "/<digits>": 0 when the character after the
   * leading '/' is not a digit (or there is none), None when lexical_cast<uint64_t>
   * would throw (a non-digit later on, or a value that does not fit in 64 bits).
   */
  function ParseId(uri: string): (r: Option<nat>)
    ensures (|uri| < 2 || !IsDigit(uri[1])) ==> r == Some(0)
    ensures r.Some? ==> r.value < U64_LIMIT
    ensures 2 <= |uri| && IsDigit(uri[1]) && r.Some? ==> AllDigits(uri[1..]) && r.value == Value(uri[1..])
    ensures 2 <= |uri| && IsDigit(uri[1]) ==>
              (r.None? <==> !AllDigits(uri[1..]) || Value(uri[1..]) >= U64_LIMIT)
  {
    if |uri| < 2 || !IsDigit(uri[1]) then Some(0)
    else if AllDigits(uri[1..]) && Value(uri[1..]) < U64_LIMIT then Some(Value(uri[1..]))
    else None
  }

  /** The decimal text of an id, behind a '/', parses back to that id. */
  lemma ParseIdRoundTrip(id: nat)
    requires id < U64_LIMIT
    ensures ParseId("/" + Digits(id)) == Some(id)
  {
    var uri := "/" + Digits(id);
    assert uri[1..] == Digits(id);
    ValueOfDigits(id);
  }
}
