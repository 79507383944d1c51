/** The event collector a worker hands to the parser, and the request it builds from
    what it collected. */
module Server {
  import opened Wrappers
  import opened Text
  import opened MultiMaps
  import QueryStrings
  import Requests
  import opened RequestParser

  /** The collector's fields, as a value. */
  datatype Fields = Fields(verb: string, url: string, query: Option<string>, version: string, headers: MultiMap)

  /** `HttpParserHandler::default()`. */
  const Default: Fields := Fields("", "", None, "", map[])

  /** The collector's reaction to one event: each callback overwrites its own field, a
      header replaces any earlier values of its field, and every other callback keeps the
      default that changes nothing. */
  function Absorb(f: Fields, ev: Event): Fields
  {
    match ev
    case Method(name) => f.(verb := name)
    case Url(url) => f.(url := url)
    case Query(query) => f.(query := Some(query))
    case HttpVersion(version) => f.(version := version)
    case Header(field, values) => f.(headers := f.headers[field := values])
    case _ => f
  }

  /** The fields after the events, in order. */
  function AbsorbAll(f: Fields, events: seq<Event>): Fields
    decreases |events|
  {
    if events == [] then f else AbsorbAll(Absorb(f, events[0]), events[1..])
  }

  /** Why `build_request` cannot build a request (the program panics in these cases). */
  datatype BuildError =
    | BadVersion   // fewer than two `.`-separated parts, or a part that is not a `u16`
    | BadUrl       // `url[1..]` cannot be taken
    | BadPattern   // the query pattern of `Query::from_str` does not compile

  /** `build_request`: the version split on `.` into a `u16` pair, the query parsed when
      one was collected, scheme `http` and no content length. */
  function Build(f: Fields): (r: Result<Requests.Request, BuildError>)
    ensures r.Ok? <==>
              |Split(f.version, ".")| >= 2 && ParseU16(Split(f.version, ".")[0]).Some?
              && ParseU16(Split(f.version, ".")[1]).Some? && Requests.Sliceable(f.url)
    ensures r.Err? && r.error == BadUrl ==> !Requests.Sliceable(f.url)
    ensures r.Ok? ==>
              r.value.httpVersion == (ParseU16(Split(f.version, ".")[0]).value, ParseU16(Split(f.version, ".")[1]).value)
    ensures r.Ok? ==>
              r.value.httpMethod == f.verb && r.value.scheme == "http" && r.value.path == f.url
              && r.value.headers == f.headers && r.value.contentLength.None?
              && (r.value.query.Some? <==> f.query.Some?)
              && (f.query.Some? ==> r.value.query.value == QueryStrings.ParseQuery(f.query.value))
  {
    var parts := Split(f.version, ".");
    if |parts| < 2 then Err(BadVersion)
    else
      match (ParseU16(parts[0]), ParseU16(parts[1]))
      case (Some(major), Some(minor)) =>
        var query := match f.query case None => None case Some(q) => Some(QueryStrings.ParseQuery(q));
        if !Requests.Sliceable(f.url) then Err(BadUrl)
        else Ok(Requests.New(f.verb, "http", f.url, query, (major, minor), f.headers, None))
      case _ => Err(BadVersion)
  }

  /** `build_request` as written: the query goes through `Query::from_str` with the pattern
      of `src/query.rs:24`, which does not compile, so a collected non-blank query makes the
      worker panic after the version is parsed and before the request is made. `Build`,
      which the rest of the model uses, parses the query with the corrected pattern. */
  function BuildAsWritten(f: Fields): Result<Requests.Request, BuildError>
  {
    var parts := Split(f.version, ".");
    if |parts| < 2 then Err(BadVersion)
    else
      match (ParseU16(parts[0]), ParseU16(parts[1]))
      case (Some(major), Some(minor)) =>
        if f.query.Some? && QueryStrings.FromStrAsWritten(f.query.value).Err? then Err(BadPattern)
        else
          var query := match f.query case None => None case Some(q) => Some(QueryStrings.FromStrAsWritten(q).value);
          if !Requests.Sliceable(f.url) then Err(BadUrl)
          else Ok(Requests.New(f.verb, "http", f.url, query, (major, minor), f.headers, None))
      case _ => Err(BadVersion)
  }

  /** `HttpParserHandler`: the fields the callbacks overwrite. */
  class HttpParserHandler {
    var verb: string
    var url: string
    var query: Option<string>
    var version: string
    var headers: MultiMap

    function State(): Fields
      reads this
    {
      Fields(verb, url, query, version, headers)
    }

    /** `HttpParserHandler::default()`. */
    constructor ()
      ensures State() == Default
    {
      verb, url, query, version, headers := "", "", None, "", map[];
    }

    method OnMethod(name: string) returns (r: Result<(), ParseError>)
      modifies this
      ensures r == Ok(()) && State() == old(State()).(verb := name)
    {
      verb := name;
      r := Ok(());
    }

    method OnUrl(u: string) returns (r: Result<(), ParseError>)
      modifies this
      ensures r == Ok(()) && State() == old(State()).(url := u)
    {
      url := u;
      r := Ok(());
    }

    method OnQuery(q: string) returns (r: Result<(), ParseError>)
      modifies this
      ensures r == Ok(()) && State() == old(State()).(query := Some(q))
    {
      query := Some(q);
      r := Ok(());
    }

    method OnHttpVersion(v: string) returns (r: Result<(), ParseError>)
      modifies this
      ensures r == Ok(()) && State() == old(State()).(version := v)
    {
      version := v;
      r := Ok(());
    }

    /** `headers.insert`: the field's earlier values, if any, are replaced. */
    method OnHeader(field: string, values: seq<string>) returns (r: Result<(), ParseError>)
      modifies this
      ensures r == Ok(()) && State() == old(State()).(headers := old(headers)[field := values])
    {
      headers := headers[field := values];
      r := Ok(());
    }

    /** The callback the parser calls for `ev`. */
    method OnEvent(ev: Event) returns (r: Result<(), ParseError>)
      modifies this
      ensures r == Ok(()) && State() == Absorb(old(State()), ev)
    {
      match ev {
        case Method(name) => r := OnMethod(name);
        case Url(u) => r := OnUrl(u);
        case Query(q) => r := OnQuery(q);
        case HttpVersion(v) => r := OnHttpVersion(v);
        case Header(field, values) => r := OnHeader(field, values);
        case _ => r := Ok(());
      }
    }

    /** The callbacks for the events, in order; none of them fails. */
    method Replay(events: seq<Event>) returns (r: Result<(), ParseError>)
      modifies this
      ensures r == Ok(()) && State() == AbsorbAll(old(State()), events)
    {
      var i := 0;
      assert events[0..] == events;
      while i < |events|
        invariant 0 <= i <= |events|
        invariant AbsorbAll(State(), events[i..]) == AbsorbAll(old(State()), events)
      {
        assert events[i..][1..] == events[i + 1..];
        var _ := OnEvent(events[i]);
        i := i + 1;
      }
      r := Ok(());
    }

    /** `build_request` on the collected fields. */
    function BuildRequest(): Result<Requests.Request, BuildError>
      reads this
    {
      Build(State())
    }
  }

  // ---------------------------------------------------------------------------
  // Properties

  /** With nothing collected, the version has no `.` and no request can be built: what
      happens after an empty stream or a malformed request line. */
  lemma DefaultBuildFails()
    ensures Build(Default) == Err(BadVersion)
  {
    assert !Contains("", ".");
    SplitWithout("", ".");
  }

  /** As written, no request is built from fields holding a non-blank query: a bad
      version fails first, and any other version reaches the query pattern, which does not
      compile. */
  lemma AsWrittenQueryPanics(f: Fields)
    requires f.query.Some? && !AllWhitespace(f.query.value)
    ensures BuildAsWritten(f).Err?
    ensures BuildAsWritten(f).error == BadPattern <==>
              |Split(f.version, ".")| >= 2 && ParseU16(Split(f.version, ".")[0]).Some?
              && ParseU16(Split(f.version, ".")[1]).Some?
  {
    QueryStrings.AsWrittenRejectsEveryQuery(f.query.value);
  }

  /** Without a query, or with a blank one, the program as written and the corrected
      build agree. */
  lemma AsWrittenAgreesWithoutQuery(f: Fields)
    requires f.query.None? || AllWhitespace(f.query.value)
    ensures BuildAsWritten(f) == Build(f)
  {
    if f.query.Some? {
      TrimBlank(f.query.value);
      QueryStrings.BlankQuery(f.query.value);
      QueryStrings.QueryStringAbsent(f.query.value);
      assert QueryStrings.ParseQuery(f.query.value) == QueryStrings.New();
    }
  }

  /** Header events change only the headers, each one setting its field. */
  lemma {:induction false} AbsorbHeaders(f: Fields, events: seq<Event>)
    requires forall k | 0 <= k < |events| :: events[k].Header?
    ensures AbsorbAll(f, events).(headers := f.headers) == f
    decreases |events|
  {
    if events != [] {
      AbsorbHeaders(Absorb(f, events[0]), events[1..]);
    }
  }

  /** The last header event for a field decides its values: later events for other
      fields and other callbacks leave them alone. */
  lemma LastHeaderWins(f: Fields, field: string, values: seq<string>, later: seq<Event>)
    requires forall k | 0 <= k < |later| :: !(later[k].Header? && later[k].field == field)
    ensures var g := AbsorbAll(Absorb(f, Header(field, values)), later);
      field in g.headers && g.headers[field] == values
  {
    HeaderKept(Absorb(f, Header(field, values)), field, values, later);
  }

  lemma {:induction false} HeaderKept(f: Fields, field: string, values: seq<string>, later: seq<Event>)
    requires field in f.headers && f.headers[field] == values
    requires forall k | 0 <= k < |later| :: !(later[k].Header? && later[k].field == field)
    ensures field in AbsorbAll(f, later).headers && AbsorbAll(f, later).headers[field] == values
    decreases |later|
  {
    if later != [] {
      HeaderKept(Absorb(f, later[0]), field, values, later[1..]);
    }
  }

  lemma AbsorbAllSnoc(f: Fields, events: seq<Event>, ev: Event)
    ensures AbsorbAll(f, events + [ev]) == Absorb(AbsorbAll(f, events), ev)
  {
    AbsorbAllAppend(f, events, [ev]);
    assert [ev][1..] == [];
  }

  lemma {:induction false} AbsorbAllAppend(f: Fields, a: seq<Event>, b: seq<Event>)
    ensures AbsorbAll(f, a + b) == AbsorbAll(AbsorbAll(f, a), b)
    decreases |a|
  {
    if a == [] {
      assert a + b == b;
    } else {
      assert (a + b)[1..] == a[1..] + b;
      AbsorbAllAppend(Absorb(f, a[0]), a[1..], b);
    }
  }

  /** A version `d.d` of two ASCII digits splits into two parts that parse as the digits. */
  lemma VersionParses(v: string)
    requires |v| == 3 && IsDigit(v[0]) && v[1] == '.' && IsDigit(v[2])
    ensures |Split(v, ".")| >= 2
    ensures ParseU16(Split(v, ".")[0]) == Some(DigitValue(v[0]))
    ensures ParseU16(Split(v, ".")[1]) == Some(DigitValue(v[2]))
  {
    assert v == [v[0]] + "." + [v[2]];
    NoEarlyMatchChar([v[0]], '.');
    SplitCons([v[0]], ".", [v[2]]);
    assert !Contains([v[2]], ".") by {
      ContainsChar([v[2]], '.');
    }
    SplitWithout([v[2]], ".");
    DigitParses(v[0]);
    DigitParses(v[2]);
  }

  lemma DigitParses(c: char)
    requires IsDigit(c)
    ensures ParseU16([c]) == Some(DigitValue(c))
  {
    assert AllDigits([c]);
    assert DecimalValue([c]) == DigitValue(c) by {
      assert [c][..0] == [];
    }
  }

  /** What a worker builds from a connection's stream: the parse result is only reported,
      so the request is built from whatever was collected. */
  function Received(stream: string, lossy: Lossy): Result<Requests.Request, BuildError>
  {
    Build(AbsorbAll(Default, ParseSpec(stream, lossy).events))
  }

  /** An empty stream or a first line that does not match yields no request. */
  lemma NoRequestLineNoRequest(stream: string, lossy: Lossy)
    requires MatchRequestLine(stream[..LineEnd(stream)]).None?
    ensures Received(stream, lossy) == Err(BadVersion)
  {
    DefaultBuildFails();
    assert AbsorbAll(Default, [MessageBegin]) == Default;
  }

  /** After a well-formed request line, a request is built exactly when its decoded URL can
      be sliced, whatever the header lines are (even when one of them is invalid); it
      carries the line's method, decoded URL and version digits, and a query exactly when
      the line had one. */
  lemma WellFormedRequest(rl: RequestLine, rest: string, lossy: Lossy)
    requires WellFormed(rl) && '\n' !in Target(rl)
    ensures var r := Received(Render(rl) + rest, lossy);
      (r.Ok? <==> Requests.Sliceable(Decode(rl.url, lossy)))
      && (r.Ok? ==>
            r.value.httpMethod == rl.verb && r.value.path == Decode(rl.url, lossy)
            && r.value.httpVersion == (DigitValue(rl.version[0]), DigitValue(rl.version[2]))
            && (r.value.query.Some? <==> rl.query.Some?))
  {
    WellFormedLine(rl, rest, lossy);
    var h := HeaderPhase(Lines(rest));
    var lineEvents := [MessageBegin] + LineEvents(rl, lossy);
    AbsorbAllAppend(Default, lineEvents, h.events);
    var f := AbsorbAll(Default, lineEvents);
    LineFields(rl, lossy);
    HeaderPhaseOnlyHeaders(Lines(rest));
    AbsorbHeaders(f, h.events);
    VersionParses(rl.version);
  }

  /** The fields a request line's events set. */
  lemma LineFields(rl: RequestLine, lossy: Lossy)
    ensures var f := AbsorbAll(Default, [MessageBegin] + LineEvents(rl, lossy));
      f.verb == rl.verb && f.url == Decode(rl.url, lossy) && f.version == rl.version
      && (f.query.Some? <==> rl.query.Some?)
      && (rl.query.Some? ==> f.query.value == Decode(rl.query.value, lossy))
  {
    var e0 := [MessageBegin];
    var e1 := e0 + [Method(rl.verb)];
    var e2 := e1 + [Url(Decode(rl.url, lossy))];
    assert AbsorbAll(Default, e0) == Default;
    AbsorbAllSnoc(Default, e0, Method(rl.verb));
    AbsorbAllSnoc(Default, e1, Url(Decode(rl.url, lossy)));
    if rl.query.Some? {
      var e3 := e2 + [Query(Decode(rl.query.value, lossy))];
      AbsorbAllSnoc(Default, e2, Query(Decode(rl.query.value, lossy)));
      AbsorbAllSnoc(Default, e3, HttpVersion(rl.version));
      assert [MessageBegin] + LineEvents(rl, lossy) == e3 + [HttpVersion(rl.version)];
    } else {
      AbsorbAllSnoc(Default, e2, HttpVersion(rl.version));
      assert [MessageBegin] + LineEvents(rl, lossy) == e2 + [HttpVersion(rl.version)];
    }
  }
}
