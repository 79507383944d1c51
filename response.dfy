/** `Response` (src/response.rs): a one-shot writer. Its status, version and headers may be
    changed only until `start`, which writes the status line, the headers, a blank line and
    the body to the connection, then shuts the connection down. */
module Responses {
  import opened Wrappers
  import opened Text
  import opened MultiMaps
  import HeaderFields

  type i32 = n: int | -0x8000_0000 <= n < 0x8000_0000

  /** The kind of an I/O error, as far as the handlers distinguish it. */
  datatype ErrorKind = NotFound | Other

  datatype IoError = IoError(kind: ErrorKind)

  /** Why an operation on a response failed: the response was already started (the
      program panics), or the connection reported an error. */
  datatype Failure = AlreadyStarted | Io(error: IoError)

  /** Everything observable about a response: its fields, the bytes handed to the
      connection's buffered writer so far (bytes still buffered when the connection is
      shut down never reach the peer), whether the headers are written and whether the
      connection has been shut down. */
  datatype ResponseState = ResponseState(
    httpVersion: string,
    status: i32,
    statusText: string,
    headers: MultiMap,
    output: seq<byte>,
    headersWritten: bool,
    shutDown: bool)

  // ---------------------------------------------------------------------------
  // Specification of the state machine

  /** `from_stream`: version `1.0`, `200 OK`, no headers, nothing written. */
  function Fresh(): ResponseState
  {
    ResponseState("1.0", 200, "OK", map[], [], false, false)
  }

  /** `with_http_version`: refused once started, else the version alone changes. */
  function SetHttpVersion(s: ResponseState, version: string): (ResponseState, Result<(), Failure>)
  {
    if s.headersWritten then (s, Err(AlreadyStarted)) else (s.(httpVersion := version), Ok(()))
  }

  /** `with_status`: refused once started, else the code and its text change together. */
  function SetStatus(s: ResponseState, status: i32, text: string): (r: (ResponseState, Result<(), Failure>))
    ensures r.1.Ok? <==> !s.headersWritten
    ensures r.1.Err? ==> r == (s, Err(AlreadyStarted))
    ensures r.1.Ok? ==> r.0.status == status && r.0.statusText == text && r.0.httpVersion == s.httpVersion
                        && r.0.headers == s.headers && r.0.output == s.output && !r.0.headersWritten
  {
    if s.headersWritten then (s, Err(AlreadyStarted)) else (s.(status := status, statusText := text), Ok(()))
  }

  /** `with_header`: refused once started, else one value is appended under `name`. */
  function AddHeader(s: ResponseState, name: string, value: string): (r: (ResponseState, Result<(), Failure>))
    ensures r.1.Ok? <==> !s.headersWritten
    ensures r.1.Err? ==> r == (s, Err(AlreadyStarted))
    ensures r.1.Ok? ==> name in r.0.headers && Values(r.0.headers, name) == Values(s.headers, name) + [value]
    ensures r.1.Ok? ==> forall k | k != name :: Values(r.0.headers, k) == Values(s.headers, k)
  {
    if s.headersWritten then (s, Err(AlreadyStarted))
    else (s.(headers := Appended(s.headers, name, [value])), Ok(()))
  }

  /** The headers `start` writes: the response's own, then a `Date` value, then
      `Connection: close`, each appended to any values already there. */
  function StartHeaders(h: MultiMap, date: string): MultiMap
  {
    Appended(Appended(h, "Date", [date]), "Connection", ["close"])
  }

  /** `HTTP/<version> <status> <text>` and CRLF. */
  function StatusLine(s: ResponseState): string
  {
    "HTTP/" + s.httpVersion + " " + IntToDecimal(s.status) + " " + s.statusText + "\r\n"
  }

  /** What `start` writes before the body: the status line, the headers visited in
      `order`, and the blank line. */
  function Head(s: ResponseState, h: MultiMap, order: seq<string>): seq<byte>
    requires forall i | 0 <= i < |order| :: order[i] in h
  {
    Utf8(StatusLine(s)) + Utf8(HeaderFields.Format(h, order)) + Utf8("\r\n")
  }

  /** What `start` returns: the shutdown's error if any, else the callback's result. */
  function Outcome(bodyResult: Result<(), IoError>, shutdownResult: Result<(), IoError>): Result<(), Failure>
  {
    if shutdownResult.Err? then Err(Io(shutdownResult.error))
    else if bodyResult.Err? then Err(Io(bodyResult.error))
    else Ok(())
  }

  /** The state `start(cb)` leaves behind when it starts: `Date` and `Connection` added,
      the head and then `body` written, the connection shut down. */
  function Started(s: ResponseState, date: string, order: seq<string>, body: seq<byte>): ResponseState
    requires IsEnumeration(order, StartHeaders(s.headers, date).Keys)
  {
    var h := StartHeaders(s.headers, date);
    ResponseState(s.httpVersion, s.status, s.statusText, h, s.output + Head(s, h, order) + body, true, true)
  }

  /** `start(cb)` when the body callback writes `body` and returns `bodyResult`, the
      shutdown returns `shutdownResult`, and the header map is visited in `order`. */
  function StartSpec(s: ResponseState, date: string, order: seq<string>, body: seq<byte>,
                     bodyResult: Result<(), IoError>, shutdownResult: Result<(), IoError>): (ResponseState, Result<(), Failure>)
    requires !s.headersWritten ==> IsEnumeration(order, StartHeaders(s.headers, date).Keys)
  {
    if s.headersWritten then (s, Err(AlreadyStarted))
    else (Started(s, date, order, body), Outcome(bodyResult, shutdownResult))
  }

  /** The head depends on the state only through its status line's fields. */
  lemma HeadOfSameLine(s: ResponseState, t: ResponseState, h: MultiMap, order: seq<string>)
    requires s.httpVersion == t.httpVersion && s.status == t.status && s.statusText == t.statusText
    requires forall i | 0 <= i < |order| :: order[i] in h
    ensures Head(s, h, order) == Head(t, h, order)
  {
    assert StatusLine(s) == StatusLine(t);
  }

  /** The state and result `start` leaves behind, field by field. */
  lemma StartSpecStarts(s: ResponseState, date: string, order: seq<string>, body: seq<byte>,
                        bodyResult: Result<(), IoError>, shutdownResult: Result<(), IoError>)
    requires !s.headersWritten && IsEnumeration(order, StartHeaders(s.headers, date).Keys)
    ensures StartSpec(s, date, order, body, bodyResult, shutdownResult)
         == (ResponseState(s.httpVersion, s.status, s.statusText, StartHeaders(s.headers, date),
                           s.output + Head(s, StartHeaders(s.headers, date), order) + body, true, true),
             Outcome(bodyResult, shutdownResult))
  {
  }

  // ---------------------------------------------------------------------------
  // The object

  class Response {
    var httpVersion: string
    var status: i32
    var statusText: string
    const headers: HeaderFields.Headers
    var output: seq<byte>
    var headersWritten: bool
    var shutDown: bool

    function State(): ResponseState
      reads this, headers
    {
      ResponseState(httpVersion, status, statusText, headers.data, output, headersWritten, shutDown)
    }

    /** `Response::from_stream`: a response on a fresh connection, with its own header map. */
    constructor FromStream()
      ensures State() == Fresh() && fresh(headers)
    {
      httpVersion := "1.0";
      status := 200;
      statusText := "OK";
      headers := new HeaderFields.Headers();
      output := [];
      headersWritten := false;
      shutDown := false;
    }

    /** `http_version_text()`: built one character at a time after `HTTP/`. */
    method HttpVersionText() returns (ver: string)
      ensures ver == "HTTP/" + httpVersion
      ensures StatusLine(State()) == ver + " " + IntToDecimal(status) + " " + statusText + "\r\n"
    {
      ver := "HTTP/";
      var i := 0;
      while i < |httpVersion|
        invariant 0 <= i <= |httpVersion|
        invariant ver == "HTTP/" + httpVersion[..i]
      {
        assert httpVersion[..i + 1] == httpVersion[..i] + [httpVersion[i]];
        ver := ver + [httpVersion[i]];
        i := i + 1;
      }
      assert httpVersion[..i] == httpVersion;
    }

    /** `with_http_version(version)`. */
    method WithHttpVersion(version: string) returns (r: Result<(), Failure>)
      modifies this
      ensures (State(), r) == SetHttpVersion(old(State()), version)
    {
      if headersWritten {
        return Err(AlreadyStarted);
      }
      httpVersion := version;
      r := Ok(());
    }

    /** `with_status(status, text)`. */
    method WithStatus(code: i32, text: string) returns (r: Result<(), Failure>)
      modifies this
      ensures (State(), r) == SetStatus(old(State()), code, text)
    {
      if headersWritten {
        return Err(AlreadyStarted);
      }
      status := code;
      statusText := text;
      r := Ok(());
    }

    /** `with_header(name, value)`. */
    method WithHeader(name: string, value: string) returns (r: Result<(), Failure>)
      modifies headers
      ensures (State(), r) == AddHeader(old(State()), name, value)
    {
      if headersWritten {
        return Err(AlreadyStarted);
      }
      headers.Insert(name, value);
      r := Ok(());
    }

    /** The first part of `start(cb)`: the status line, the header map visited in
        `order`, and the blank line, as the bytes written to the stream. */
    method WriteHead() returns (order: seq<string>, head: seq<byte>)
      ensures IsEnumeration(order, headers.data.Keys)
      ensures head == Head(State(), headers.data, order)
    {
      var statusLine := "HTTP/" + httpVersion + " " + IntToDecimal(status) + " " + statusText + "\r\n";
      order := Enumerate(headers.data.Keys);
      var text := headers.ToString(order);
      head := Utf8(statusLine) + Utf8(text) + Utf8("\r\n");
    }

    /** The `Date` and `Connection` fields `start` adds before writing. */
    method AddStartHeaders(date: string)
      modifies headers
      ensures headers.data == StartHeaders(old(headers.data), date)
    {
      headers.Insert("Date", date);
      headers.Insert("Connection", "close");
    }

    /** `start(cb)`: `body` and `bodyResult` are what the callback writes and returns,
        `shutdownResult` what shutting the connection down returns. `order` is the order
        in which the header map was visited. */
    method Start(date: string, body: seq<byte>, bodyResult: Result<(), IoError>, shutdownResult: Result<(), IoError>)
      returns (r: Result<(), Failure>, order: seq<string>)
      modifies this, headers
      ensures !old(headersWritten) ==> IsEnumeration(order, StartHeaders(old(headers.data), date).Keys)
      ensures (State(), r) == StartSpec(old(State()), date, order, body, bodyResult, shutdownResult)
    {
      if headersWritten {
        return Err(AlreadyStarted), [];
      }
      ghost var s0 := State();
      r, order := WriteAll(date, body, bodyResult, shutdownResult);
      StartSpecStarts(s0, date, order, body, bodyResult, shutdownResult);
    }

    /** What `start(cb)` does once it has checked that nothing was written yet. */
    method WriteAll(date: string, body: seq<byte>, bodyResult: Result<(), IoError>, shutdownResult: Result<(), IoError>)
      returns (r: Result<(), Failure>, order: seq<string>)
      requires !headersWritten
      modifies this, headers
      ensures IsEnumeration(order, StartHeaders(old(headers.data), date).Keys)
      ensures State() == Started(old(State()), date, order, body)
      ensures r == Outcome(bodyResult, shutdownResult)
    {
      ghost var s0 := State();
      ghost var h := StartHeaders(s0.headers, date);
      AddStartHeaders(date);
      var head;
      order, head := WriteHead();
      HeadOfSameLine(State(), s0, h, order);
      headersWritten, output, shutDown := true, output + head + body, true;
      if shutdownResult.Err? {
        return Err(Io(shutdownResult.error)), order;
      }
      r := if bodyResult.Err? then Err(Io(bodyResult.error)) else Ok(());
    }
  }

  // ---------------------------------------------------------------------------
  // Properties

  /** Once started, every setter and `start` itself fail and change nothing. */
  lemma StartedRefusesEverything(s: ResponseState, version: string, code: i32, text: string,
                                 name: string, value: string, date: string, order: seq<string>,
                                 body: seq<byte>, bodyResult: Result<(), IoError>, shutdownResult: Result<(), IoError>)
    requires s.headersWritten
    ensures SetHttpVersion(s, version) == (s, Err(AlreadyStarted))
    ensures SetStatus(s, code, text) == (s, Err(AlreadyStarted))
    ensures AddHeader(s, name, value) == (s, Err(AlreadyStarted))
    ensures StartSpec(s, date, order, body, bodyResult, shutdownResult) == (s, Err(AlreadyStarted))
  {
  }

  /** Before the start, each setter succeeds and changes its own field and nothing else. */
  lemma SettersBeforeStart(s: ResponseState, version: string, code: i32, text: string, name: string, value: string)
    requires !s.headersWritten
    ensures SetHttpVersion(s, version).1 == Ok(()) && SetHttpVersion(s, version).0 == s.(httpVersion := version)
    ensures SetStatus(s, code, text).1 == Ok(()) && SetStatus(s, code, text).0 == s.(status := code, statusText := text)
    ensures var t := AddHeader(s, name, value).0;
      AddHeader(s, name, value).1 == Ok(()) && t == s.(headers := t.headers)
      && t.headers.Keys == s.headers.Keys + {name}
      && t.headers[name] == Values(s.headers, name) + [value]
      && forall k | k in s.headers && k != name :: t.headers[k] == s.headers[k]
  {
  }

  /** A started response stays started: a second `start` fails, whatever the first one's
      callback and shutdown returned. */
  lemma StartIsOneShot(s: ResponseState, date: string, order: seq<string>, body: seq<byte>,
                       bodyResult: Result<(), IoError>, shutdownResult: Result<(), IoError>,
                       date2: string, order2: seq<string>, body2: seq<byte>,
                       bodyResult2: Result<(), IoError>, shutdownResult2: Result<(), IoError>)
    requires !s.headersWritten && IsEnumeration(order, StartHeaders(s.headers, date).Keys)
    ensures var t := StartSpec(s, date, order, body, bodyResult, shutdownResult).0;
      t.headersWritten && t.shutDown
      && StartSpec(t, date2, order2, body2, bodyResult2, shutdownResult2) == (t, Err(AlreadyStarted))
  {
  }

  /** The result of `start`: a shutdown error wins, else the callback's result. */
  lemma StartResult(s: ResponseState, date: string, order: seq<string>, body: seq<byte>,
                    bodyResult: Result<(), IoError>, shutdownResult: Result<(), IoError>)
    requires !s.headersWritten && IsEnumeration(order, StartHeaders(s.headers, date).Keys)
    ensures var r := StartSpec(s, date, order, body, bodyResult, shutdownResult).1;
      (r == Ok(()) <==> bodyResult.Ok? && shutdownResult.Ok?)
      && (shutdownResult.Err? ==> r == Err(Io(shutdownResult.error)))
      && (shutdownResult.Ok? && bodyResult.Err? ==> r == Err(Io(bodyResult.error)))
  {
  }

  /** `start` adds exactly one `Date` value and then one `close` under `Connection`, after
      any values the handler set; every other header keeps its values. */
  lemma StartAddsDateAndConnection(h: MultiMap, date: string)
    ensures var t := StartHeaders(h, date);
      t.Keys == h.Keys + {"Date", "Connection"}
      && t["Date"] == Values(h, "Date") + [date]
      && t["Connection"] == Values(h, "Connection") + ["close"]
      && forall k | k in h && k != "Date" && k != "Connection" :: t[k] == h[k]
  {
    var d := Appended(h, "Date", [date]);
    assert "Date" != "Connection";
    assert d["Date"] == Values(h, "Date") + [date];
  }

  /** Every header list of a response has a value: true of a fresh response and kept by
      every operation. */
  ghost predicate Reachable(s: ResponseState)
  {
    NonEmptyLists(s.headers)
  }

  lemma ReachableKept(s: ResponseState, version: string, code: i32, text: string, name: string, value: string,
                      date: string, order: seq<string>, body: seq<byte>,
                      bodyResult: Result<(), IoError>, shutdownResult: Result<(), IoError>)
    requires Reachable(s)
    requires !s.headersWritten ==> IsEnumeration(order, StartHeaders(s.headers, date).Keys)
    ensures Reachable(Fresh())
    ensures Reachable(SetHttpVersion(s, version).0)
    ensures Reachable(SetStatus(s, code, text).0)
    ensures Reachable(AddHeader(s, name, value).0)
    ensures Reachable(StartSpec(s, date, order, body, bodyResult, shutdownResult).0)
  {
    var t := AddHeader(s, name, value).0;
    assert forall k | k in t.headers :: t.headers[k] != [] by {
      forall k | k in t.headers ensures t.headers[k] != [] {
        if k == name && !s.headersWritten {
          assert value in t.headers[k];
        }
      }
    }
    if !s.headersWritten {
      StartKeepsLists(s.headers, date);
    }
  }

  /** Appending `Date` and `Connection` keeps every list non-empty. */
  lemma StartKeepsLists(h: MultiMap, date: string)
    requires NonEmptyLists(h)
    ensures NonEmptyLists(StartHeaders(h, date))
  {
    var d := Appended(h, "Date", [date]);
    assert d["Date"] == Values(h, "Date") + [date];
    assert NonEmptyLists(d);
    var t := Appended(d, "Connection", ["close"]);
    assert t["Connection"] == Values(d, "Connection") + ["close"];
  }

  /** What a start from a reachable state writes: the status line, one line per header
      and no header cut off, the blank line and the body, each after what was written
      before. */
  lemma StartOutput(s: ResponseState, date: string, order: seq<string>, body: seq<byte>,
                    bodyResult: Result<(), IoError>, shutdownResult: Result<(), IoError>)
    requires Reachable(s) && !s.headersWritten
    requires IsEnumeration(order, StartHeaders(s.headers, date).Keys)
    ensures var t := StartSpec(s, date, order, body, bodyResult, shutdownResult).0;
      t.output == s.output + Utf8(StatusLine(s) + HeaderFields.Concat(HeaderFields.FormatLines(t.headers, order)) + "\r\n") + body
      && |HeaderFields.FormatLines(t.headers, order)| == |t.headers|
  {
    var h := StartHeaders(s.headers, date);
    StartKeepsLists(s.headers, date);
    HeaderFields.FormatIsLines(h, order);
    var lines := HeaderFields.Concat(HeaderFields.FormatLines(h, order));
    Utf8Concat(StatusLine(s), lines);
    Utf8Concat(StatusLine(s) + lines, "\r\n");
  }

  /** Read back line by line, the header block of a start gives the header map, `Date`
      and `Connection` included, when its names and values can be read back at all. */
  lemma StartHeadersReadBack(s: ResponseState, date: string, order: seq<string>)
    requires IsEnumeration(order, StartHeaders(s.headers, date).Keys)
    requires HeaderFields.Reparseable(StartHeaders(s.headers, date))
    ensures var lines := HeaderFields.FormatLines(StartHeaders(s.headers, date), order);
      HeaderFields.AllSplit(lines)
      && HeaderFields.ParseAll(map[], lines) == StartHeaders(s.headers, date)
  {
    HeaderFields.FormatRoundTrip(StartHeaders(s.headers, date), order);
  }

  /** The status line of a fresh response is `HTTP/1.0 200 OK`. */
  lemma FreshStatusLine()
    ensures StatusLine(Fresh()) == "HTTP/1.0 200 OK\r\n"
  {
    Decimal200();
    var s := Fresh();
    StatusLineOf(s, "200");
    assert "HTTP/" + "1.0" + " " + "200" + " " + "OK" + "\r\n" == "HTTP/1.0 200 OK\r\n";
  }

  /** After `with_status(404, "Not Found")` the status line is `HTTP/1.0 404 Not Found`. */
  lemma NotFoundStatusLine()
    ensures StatusLine(SetStatus(Fresh(), 404, "Not Found").0) == "HTTP/1.0 404 Not Found\r\n"
  {
    Decimal404();
    var s := SetStatus(Fresh(), 404, "Not Found").0;
    assert s.httpVersion == "1.0" && s.status == 404 && s.statusText == "Not Found";
    StatusLineOf(s, "404");
    assert "HTTP/" + "1.0" + " " + "404" + " " + "Not Found" + "\r\n" == "HTTP/1.0 404 Not Found\r\n";
  }

  lemma StatusLineOf(s: ResponseState, digits: string)
    requires IntToDecimal(s.status) == digits
    ensures StatusLine(s) == "HTTP/" + s.httpVersion + " " + digits + " " + s.statusText + "\r\n"
  {
  }

  lemma Decimal200()
    ensures IntToDecimal(200) == "200"
  {
    assert NatToDecimal(2) == "2";
    assert NatToDecimal(20) == NatToDecimal(2) + "0";
    assert NatToDecimal(200) == NatToDecimal(20) + "0";
  }

  lemma Decimal404()
    ensures IntToDecimal(404) == "404"
  {
    assert NatToDecimal(4) == "4";
    assert NatToDecimal(40) == NatToDecimal(4) + "0";
    assert NatToDecimal(404) == NatToDecimal(40) + "4";
  }
}
