/**
  The loopback callback receiver of src/gauth2.rs: `recv_response` polls a
  non-blocking listener until a browser connects, the 120-second limit is
  reached or the listener fails; `accept_peer` parses the request header and
  answers with a fixed 200 reply. The sockets and the stopwatch are replaced
  by a finite sequence of poll events, each carrying the stopwatch reading
  at the moment the loop examines it.
*/
module Callback {
  import opened Wrappers
  import opened Strings
  import opened PercentCoding
  import opened QueryString

  /** Seconds after which the wait gives up. */
  const TimeoutSecs := 120

  /** The reply `accept_peer` writes to the browser. */
  const Reply := "HTTP/1.1 200 OK\r\n\r\nOk."

  /** An accepted connection: the lines the browser sends, and whether writing the reply succeeds. */
  datatype Connection = Connection(lines: seq<string>, writable: bool)

  /** One item of `listener.incoming()`. */
  datatype Status = Incoming(conn: Connection) | WouldBlock | Failed

  /** An item together with the stopwatch reading, in whole seconds, when the loop examines it. */
  datatype Event = Event(elapsed: nat, status: Status)

  datatype RecvError =
    | BindFailed          // binding the listener or making it non-blocking failed
    | TimedOut            // 120 seconds have passed
    | Denied(error: string)  // the callback carried a non-empty `error`
    | RequestPanicked     // parsing the request line panicked (a pair without `=`, a bad `%` escape)
    | ReplyFailed         // writing the reply failed

  predicate AsciiLines(lines: seq<string>) {
    forall i :: 0 <= i < |lines| ==> IsAscii(lines[i])
  }

  /** Every connection among the events sends an ASCII header block. */
  predicate AsciiEvents(events: seq<Event>) {
    forall k :: 0 <= k < |events| && events[k].status.Incoming? ==> AsciiLines(HeaderBlock(events[k].status.conn.lines))
  }

  /** `take_while(|line| !line.is_empty())`: the lines before the first empty one. */
  function HeaderBlock(lines: seq<string>): (h: seq<string>)
    ensures |h| <= |lines| && h == lines[..|h|]
    ensures forall i :: 0 <= i < |h| ==> h[i] != ""
    ensures |h| == |lines| || lines[|h|] == ""
  {
    if lines == [] || lines[0] == "" then [] else [lines[0]] + HeaderBlock(lines[1..])
  }

  /** A prefix without empty lines that is followed by an empty line, or is everything, is the header block. */
  lemma {:induction false} HeaderBlockUnique(lines: seq<string>, n: nat)
    requires n <= |lines| && (n == |lines| || lines[n] == "")
    requires forall i :: 0 <= i < n ==> lines[i] != ""
    ensures HeaderBlock(lines) == lines[..n]
  {
    if n > 0 {
      HeaderBlockUnique(lines[1..], n - 1);
      assert lines[..n] == [lines[0]] + lines[1..][..n - 1];
    }
  }

  /** What `accept_peer` yields for a connection. */
  function Served(conn: Connection): Result<Query, RecvError> {
    match RequestQuery(HeaderBlock(conn.lines))
    case None => Err(RequestPanicked)
    case Some(q) => if conn.writable then Ok(q) else Err(ReplyFailed)
  }

  /** `accept_peer`: collects the header block, parses it, writes the fixed reply. */
  method AcceptPeer(conn: Connection) returns (r: Result<Query, RecvError>, written: string)
    requires AsciiLines(HeaderBlock(conn.lines))
    ensures r == Served(conn)
    ensures written == (if r.Ok? then Reply else "")
  {
    var header: seq<string> := [];
    var i := 0;
    while i < |conn.lines| && conn.lines[i] != ""
      invariant 0 <= i <= |conn.lines|
      invariant header == conn.lines[..i]
      invariant forall j :: 0 <= j < i ==> conn.lines[j] != ""
    {
      header := header + [conn.lines[i]];
      i := i + 1;
    }
    HeaderBlockUnique(conn.lines, i);
    var q := DiagnoseHttpRequest(header);
    if q.None? {
      return Err(RequestPanicked), "";
    }
    if !conn.writable {
      return Err(ReplyFailed), "";
    }
    written := Reply;
    r := Ok(q.value);
  }

  /** The lines after the first empty line (a request body) never reach the parser. */
  lemma BodyIgnored(header: seq<string>, body: seq<string>, writable: bool)
    requires forall i :: 0 <= i < |header| ==> header[i] != ""
    ensures Served(Connection(header + [""] + body, writable)) == Served(Connection(header, writable))
  {
    HeaderBlockUnique(header + [""] + body, |header|);
    HeaderBlockUnique(header, |header|);
    assert (header + [""] + body)[..|header|] == header;
    assert header[..|header|] == header;
  }

  /** How the poll loop ends. */
  datatype WaitEnd = Expired | Connected(conn: Connection) | Stopped

  /** What the loop does with one event that does not send it round again. */
  function Decide(e: Event): WaitEnd {
    if e.elapsed >= TimeoutSecs then Expired
    else match e.status
      case Incoming(c) => Connected(c)
      case _ => Stopped
  }

  /** The poll loop: `WouldBlock` before the deadline goes round again; the event sequence running out ends it like a failure. */
  function Wait(events: seq<Event>): WaitEnd {
    if events == [] then Stopped
    else if events[0].elapsed < TimeoutSecs && events[0].status.WouldBlock? then Wait(events[1..])
    else Decide(events[0])
  }

  /** The first `k` events all send the loop round again. */
  predicate Pending(events: seq<Event>, k: nat)
    requires k <= |events|
  {
    forall i :: 0 <= i < k ==> events[i].elapsed < TimeoutSecs && events[i].status.WouldBlock?
  }

  /** The first event that is not a `WouldBlock` before the deadline decides the wait; with none, the wait stops. */
  lemma {:induction false} WaitDecidedAt(events: seq<Event>, k: nat)
    requires k <= |events| && Pending(events, k)
    requires k < |events| ==> !(events[k].elapsed < TimeoutSecs && events[k].status.WouldBlock?)
    ensures Wait(events) == if k == |events| then Stopped else Decide(events[k])
  {
    if k > 0 {
      assert events[0].elapsed < TimeoutSecs && events[0].status.WouldBlock?;
      assert forall i :: 0 <= i < k - 1 ==> events[1..][i] == events[i + 1];
      WaitDecidedAt(events[1..], k - 1);
    }
  }

  /** The extraction after the loop: `error` first, then `code` and `state`, absent keys read as "". */
  function Extract(query: Query): (r: Result<(string, string), RecvError>)
    ensures r.Err? <==> "error" in query && query["error"] != ""
    ensures r.Err? ==> r.error == Denied(query["error"])
    ensures r.Ok? ==> r.value.0 == (if "code" in query then query["code"] else "")
    ensures r.Ok? ==> r.value.1 == (if "state" in query then query["state"] else "")
  {
    var error := GetString(query, "error");
    if error != "" then Err(Denied(error))
    else Ok((GetString(query, "code"), GetString(query, "state")))
  }

  /** What `recv_response` returns, given whether the listener could be set up and the events it sees. */
  function Received(bound: bool, events: seq<Event>): Result<(string, string), RecvError> {
    if !bound then Err(BindFailed)
    else match Wait(events)
      case Expired => Err(TimedOut)
      case Stopped => Extract(map[])
      case Connected(c) =>
        match Served(c)
        case Err(e) => Err(e)
        case Ok(q) => Extract(q)
  }

  /**
    `recv_response`: the poll loop with its `continue` and `break`s, then
    the extraction. `accepted` lists the connections handed to `accept_peer`.
  */
  method RecvResponse(bound: bool, events: seq<Event>) returns (r: Result<(string, string), RecvError>, accepted: seq<Connection>)
    requires AsciiEvents(events)
    ensures r == Received(bound, events)
    ensures accepted == if bound && Wait(events).Connected? then [Wait(events).conn] else []
  {
    accepted := [];
    if !bound {
      return Err(BindFailed), accepted;
    }
    var query: Query := map[];
    var i := 0;
    while i < |events|
      invariant 0 <= i <= |events|
      invariant Wait(events[i..]) == Wait(events)
      invariant accepted == [] && query == map[]
    {
      var e := events[i];
      if TimeoutSecs <= e.elapsed {
        return Err(TimedOut), accepted;
      }
      if e.status.WouldBlock? {
        i := i + 1;
        continue;
      }
      if e.status.Failed? {
        break;
      }
      var served, _ := AcceptPeer(e.status.conn);
      accepted := [e.status.conn];
      if served.Err? {
        return Err(served.error), accepted;
      }
      query := served.value;
      break;
    }
    assert || (Wait(events) == Stopped && query == map[] && accepted == [])
           || (Wait(events).Connected? && accepted == [Wait(events).conn] && Served(Wait(events).conn) == Ok(query));
    var error := GetString(query, "error");
    if error != "" {
      return Err(Denied(error)), accepted;
    }
    var code := GetString(query, "code");
    var state := GetString(query, "state");
    return Ok((code, state)), accepted;
  }

  /** An event examined at or after 120 seconds ends the wait with the timeout error, even a ready connection. */
  lemma TimeoutWins(events: seq<Event>, k: nat)
    requires k < |events| && Pending(events, k) && events[k].elapsed >= TimeoutSecs
    ensures Received(true, events) == Err(TimedOut)
  {
    WaitDecidedAt(events, k);
  }

  /** A listener failure before the deadline, or the end of the events, breaks with the empty query: the result is `Ok(("", ""))`. */
  lemma FailureGivesEmptyCode(events: seq<Event>, k: nat)
    requires k <= |events| && Pending(events, k)
    requires k < |events| ==> events[k].elapsed < TimeoutSecs && events[k].status.Failed?
    ensures Received(true, events) == Ok(("", ""))
  {
    WaitDecidedAt(events, k);
  }

  /** A connection before the deadline is the only one accepted; its query decides the result. */
  lemma FirstConnectionDecides(events: seq<Event>, k: nat)
    requires k < |events| && Pending(events, k)
    requires events[k].elapsed < TimeoutSecs && events[k].status.Incoming?
    ensures Wait(events) == Connected(events[k].status.conn)
    ensures Received(true, events) ==
      match Served(events[k].status.conn)
      case Err(e) => Err(e)
      case Ok(q) => Extract(q)
  {
    WaitDecidedAt(events, k);
  }

  lemma ReceivedOne(c: Connection)
    ensures Received(true, [Event(0, Incoming(c))]) ==
      match Served(c)
      case Err(e) => Err(e)
      case Ok(q) => Extract(q)
  {
    assert [Event(0, Incoming(c))][1..] == [];
  }

  lemma ServedFirstGet(lines: seq<string>)
    requires |lines| > 0 && StartsWith(lines[0], "GET /")
    requires forall i :: 0 <= i < |lines| ==> lines[i] != ""
    ensures Served(Connection(lines, true)) ==
      match QueryOf(GetRequestPath(lines[0]))
      case None => Err(RequestPanicked)
      case Some(q) => Ok(q)
  {
    HeaderBlockUnique(lines, |lines|);
    assert lines[..|lines|] == lines;
  }

  /** A connection whose first line is `GET <path> <version>`, followed by header lines, is decided by the query of `path`. */
  lemma RequestLineDecides(path: string, version: string, rest: seq<string>)
    requires StartsWith(path, "/") && ' ' !in path
    requires forall i :: 0 <= i < |rest| ==> rest[i] != ""
    ensures Received(true, [Event(0, Incoming(Connection(["GET " + path + " " + version] + rest, true)))]) ==
      match QueryOf(path)
      case None => Err(RequestPanicked)
      case Some(q) => Extract(q)
  {
    var lines := ["GET " + path + " " + version] + rest;
    RequestLinePath(path, version);
    assert lines[0][..5] == "GET /";
    ServedFirstGet(lines);
    ReceivedOne(Connection(lines, true));
  }

  /** A redirect carrying a code and a state, and no error, yields that code and state. */
  lemma CodeAndState(code: string, state: string)
    ensures Extract(MapOf([("code", code), ("state", state)])) == Ok((code, state))
  {
    assert [("code", code), ("state", state)][..1] == [("code", code)];
    assert [("code", code)][..0] == [];
    assert MapOf([("code", code)]) == map["code" := code];
    assert MapOf([("code", code), ("state", state)]) == map["code" := code, "state" := state];
  }

  /** A redirect carrying a non-empty error is refused with that error, whatever code and state come with it. */
  lemma ErrorFirst(error: string, code: string, state: string)
    requires error != ""
    ensures Extract(MapOf([("error", error), ("code", code), ("state", state)])) == Err(Denied(error))
  {
    var kvs := [("error", error), ("code", code), ("state", state)];
    assert kvs[..2] == [("error", error), ("code", code)];
    assert kvs[..2][..1] == [("error", error)];
    assert [("error", error)][..0] == [];
    assert MapOf([("error", error)]) == map["error" := error];
    assert MapOf(kvs[..2]) == map["error" := error, "code" := code];
    assert MapOf(kvs) == map["error" := error, "code" := code, "state" := state];
  }
}
