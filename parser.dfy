/** The streaming request parser: one request line, then header lines up to the first
    blank one, reported to a handler as a sequence of events. The handler is modelled as
    the log of the events it receives. */
module RequestParser {
  import opened Wrappers
  import opened Text
  import opened PercentCoding
  import HeaderFields

  /** The callbacks of `ParserHandler`, one constructor each. */
  datatype Event =
    | MessageBegin
    | Method(name: string)
    | Url(url: string)
    | Query(query: string)
    | HttpVersion(version: string)
    | Status(code: nat)
    | Header(field: string, values: seq<string>)
    | Body(part: seq<byte>)
    | HeadersComplete
    | MessageComplete

  /** Why parsing stops with an error. */
  datatype ParseError = MalformedRequestLine | InvalidHeaderLine(line: string)

  /** The events a parse reports and how it ends. */
  datatype Outcome = Outcome(events: seq<Event>, result: Result<(), ParseError>)

  /** `String::from_utf8_lossy` after percent decoding; the conversion itself is a
      parameter. */
  type Lossy = seq<byte> -> string

  // ---------------------------------------------------------------------------
  // The request line

  /** The parts the request-line pattern captures. */
  datatype RequestLine = RequestLine(verb: string, url: string, query: Option<string>, version: string)

  predicate IsUpper(c: char)
  {
    'A' <= c <= 'Z'
  }

  /** The first index at or after `i` that does not hold an upper-case ASCII letter. */
  function UpperEnd(s: string, i: nat): (n: nat)
    requires i <= |s|
    ensures i <= n <= |s|
    ensures forall k | i <= k < n :: IsUpper(s[k])
    ensures n < |s| ==> !IsUpper(s[n])
    decreases |s| - i
  {
    if i < |s| && IsUpper(s[i]) then UpperEnd(s, i + 1) else i
  }

  lemma {:induction false} UpperEndIs(s: string, i: nat, n: nat)
    requires i <= n < |s| && !IsUpper(s[n])
    requires forall k | i <= k < n :: IsUpper(s[k])
    ensures UpperEnd(s, i) == n
    decreases n - i
  {
    if i < n {
      UpperEndIs(s, i + 1, n);
    }
  }

  /** The fixed tail ` HTTP/d.d` followed by CR LF, eleven characters. */
  predicate VersionSuffix(t: string)
  {
    |t| == 11 && t[..6] == " HTTP/" && IsDigit(t[6]) && t[7] == '.' && IsDigit(t[8])
    && t[9] == '\r' && t[10] == '\n'
  }

  /** The pattern `^([A-Z]*?) ([^?]+)(\?([^#]+))? HTTP/(\d\.\d)\r\n$` applied to a line:
      the method is the leading run of upper-case letters and must be followed by a space;
      the line must end in the eleven-character version tail; what lies between is the URL
      up to the first `?` (at least one character) and, after that `?`, the query (at
      least one character, no `#`). */
  function MatchRequestLine(line: string): Option<RequestLine>
  {
    if |line| < 11 || !VersionSuffix(line[|line| - 11..]) then None
    else
      var e := |line| - 11;
      var m := UpperEnd(line, 0);
      if m >= e || line[m] != ' ' then None
      else
        var middle := line[m + 1..e];
        var q := FindChar(middle, '?', 0);
        if q == 0 then None
        else if q == |middle| then Some(RequestLine(line[..m], middle, None, line[e + 6..e + 9]))
        else if q + 1 == |middle| || '#' in middle[q + 1..] then None
        else Some(RequestLine(line[..m], middle[..q], Some(middle[q + 1..]), line[e + 6..e + 9]))
  }

  /** The captures the pattern can produce. */
  predicate WellFormed(rl: RequestLine)
  {
    (forall k | 0 <= k < |rl.verb| :: IsUpper(rl.verb[k]))
    && rl.url != [] && '?' !in rl.url
    && (rl.query.Some? ==> rl.query.value != [] && '#' !in rl.query.value)
    && |rl.version| == 3 && IsDigit(rl.version[0]) && rl.version[1] == '.' && IsDigit(rl.version[2])
  }

  /** The URL with its `?query` part, as it appears on the line. */
  function Target(rl: RequestLine): string
  {
    match rl.query
    case None => rl.url
    case Some(q) => rl.url + "?" + q
  }

  /** The line a request line's parts are written as. */
  function Render(rl: RequestLine): string
  {
    rl.verb + " " + Target(rl) + " HTTP/" + rl.version + "\r\n"
  }

  lemma RenderShape(rl: RequestLine)
    requires |rl.version| == 3
    ensures var line := Render(rl);
      var e := |line| - 11;
      e == |rl.verb| + 1 + |Target(rl)|
      && line[..|rl.verb|] == rl.verb && line[|rl.verb|] == ' '
      && line[|rl.verb| + 1..e] == Target(rl)
      && line[e..] == " HTTP/" + rl.version + "\r\n"
      && line[e + 6..e + 9] == rl.version
  {
  }

  /** The URL and query read back from the middle of a rendered line. */
  lemma TargetSplit(rl: RequestLine)
    requires WellFormed(rl)
    ensures var t := Target(rl); var q := FindChar(t, '?', 0);
      q == |rl.url| && t[..q] == rl.url
      && (rl.query.None? ==> q == |t|)
      && (rl.query.Some? ==> q < |t| && t[q + 1..] == rl.query.value)
  {
    var t := Target(rl);
    assert forall k | 0 <= k < |rl.url| :: t[k] == rl.url[k];
    if rl.query.None? {
      FindCharEnd(t, '?', 0);
    } else {
      assert t[|rl.url|] == '?';
      FindCharIs(t, '?', 0, |rl.url|);
      assert t[|rl.url| + 1..] == rl.query.value;
    }
  }

  /** A version of the form `d.d` gives the fixed tail. */
  lemma RenderedSuffix(version: string)
    requires |version| == 3 && IsDigit(version[0]) && version[1] == '.' && IsDigit(version[2])
    ensures VersionSuffix(" HTTP/" + version + "\r\n")
  {
    var t := " HTTP/" + version + "\r\n";
    assert t[..6] == " HTTP/";
    assert t[6..9] == version;
  }

  /** Every well-formed request line is matched, with exactly its parts. */
  lemma MatchComplete(rl: RequestLine)
    requires WellFormed(rl)
    ensures MatchRequestLine(Render(rl)) == Some(rl)
  {
    var line := Render(rl);
    RenderShape(rl);
    var e := |line| - 11;
    RenderedSuffix(rl.version);
    forall k | 0 <= k < |rl.verb| ensures IsUpper(line[k]) {
      assert line[k] == line[..|rl.verb|][k];
    }
    UpperEndIs(line, 0, |rl.verb|);
    TargetSplit(rl);
  }

  /** Whatever is matched is a well-formed request line, and the line is its rendering. */
  lemma MatchSound(line: string)
    requires MatchRequestLine(line).Some?
    ensures WellFormed(MatchRequestLine(line).value)
    ensures Render(MatchRequestLine(line).value) == line
  {
    MatchedWellFormed(line);
    MatchedRendering(line);
  }

  /** The parts of a match are well formed. */
  lemma MatchedWellFormed(line: string)
    requires MatchRequestLine(line).Some?
    ensures WellFormed(MatchRequestLine(line).value)
  {
    var rl := MatchRequestLine(line).value;
    assert forall k | 0 <= k < |rl.verb| :: rl.verb[k] == line[k];
  }

  /** A matched line is the rendering of its parts. */
  lemma MatchedRendering(line: string)
    requires MatchRequestLine(line).Some?
    ensures Render(MatchRequestLine(line).value) == line
  {
    var rl := MatchRequestLine(line).value;
    var e := |line| - 11;
    var m := UpperEnd(line, 0);
    var middle := line[m + 1..e];
    var q := FindChar(middle, '?', 0);
    assert Target(rl) == middle by {
      if q < |middle| {
        assert middle == middle[..q] + "?" + middle[q + 1..];
      }
    }
    SuffixParts(line[e..]);
    assert line[e..][6..9] == line[e + 6..e + 9];
    RenderFromParts(rl, line, m, e);
  }

  /** A line made of a request line's parts, in order, is its rendering. */
  lemma RenderFromParts(rl: RequestLine, line: string, m: nat, e: nat)
    requires m < e <= |line| && line[m] == ' '
    requires line[..m] == rl.verb && line[m + 1..e] == Target(rl)
    requires line[e..] == " HTTP/" + rl.version + "\r\n"
    ensures Render(rl) == line
  {
    CutAround(line, m, e);
  }

  /** The version tail is ` HTTP/`, the version and CR LF. */
  lemma SuffixParts(t: string)
    requires VersionSuffix(t)
    ensures t == " HTTP/" + t[6..9] + "\r\n"
  {
  }

  /** A line cut before and after a space at `m` and at `e`. */
  lemma CutAround(line: string, m: nat, e: nat)
    requires m < e <= |line| && line[m] == ' '
    ensures line == line[..m] + " " + line[m + 1..e] + line[e..]
  {
  }

  // ---------------------------------------------------------------------------
  // Reading lines

  /** The length of the first line `read_line` takes from the stream: through the first
      line feed, or the whole rest of the stream. */
  function LineEnd(s: string): (n: nat)
    ensures n <= |s|
    ensures s != [] ==> n > 0
    ensures (n == |s| && '\n' !in s) || (0 < n && s[n - 1] == '\n' && '\n' !in s[..n - 1])
  {
    var n := FindChar(s, '\n', 0);
    if n < |s| then
      assert s[..n + 1][..n] == s[..n];
      n + 1
    else |s|
  }

  /** A line without its final carriage return, if any. */
  function StripCr(l: string): string
  {
    if l != [] && l[|l| - 1] == '\r' then l[..|l| - 1] else l
  }

  /** The lines `lines()` yields: split at each line feed, dropping the line feed and a
      carriage return just before it; a final piece without a line feed is yielded as it
      is, and nothing is yielded for an empty rest. */
  function Lines(s: string): (ls: seq<string>)
    ensures forall k | 0 <= k < |ls| :: '\n' !in ls[k]
    ensures ls == [] <==> s == []
    decreases |s|
  {
    if s == [] then []
    else
      var n := FindChar(s, '\n', 0);
      if n == |s| then [s]
      else
        assert '\n' !in s[..n];
        assert '\n' !in StripCr(s[..n]);
        [StripCr(s[..n])] + Lines(s[n + 1..])
  }

  /** A line ended by CR LF is yielded without them. */
  lemma LinesCrLf(l: string, rest: string)
    requires '\n' !in l
    ensures Lines(l + "\r\n" + rest) == [l] + Lines(rest)
  {
    var s := l + "\r\n" + rest;
    assert s[|l| + 1] == '\n';
    assert forall k | 0 <= k < |l| + 1 :: s[k] != '\n' by {
      assert forall k | 0 <= k < |l| :: s[k] == l[k];
    }
    FindCharIs(s, '\n', 0, |l| + 1);
    assert s[..|l| + 1] == l + "\r";
    assert s[|l| + 2..] == rest;
  }

  /** A line ended by a bare line feed is yielded without it, and the rest follows. */
  lemma LinesLf(l: string, rest: string)
    requires '\n' !in l && (l == [] || l[|l| - 1] != '\r')
    ensures Lines(l + "\n" + rest) == [l] + Lines(rest)
  {
    var s := l + "\n" + rest;
    assert s[|l|] == '\n';
    assert forall k | 0 <= k < |l| :: s[k] != '\n' by {
      assert forall k | 0 <= k < |l| :: s[k] == l[k];
    }
    FindCharIs(s, '\n', 0, |l|);
    assert s[..|l|] == l;
    assert s[|l| + 1..] == rest;
  }

  /** A last piece without a line feed is yielded whole. */
  lemma LinesLast(l: string)
    requires l != [] && '\n' !in l
    ensures Lines(l) == [l]
  {
    FindCharEnd(l, '\n', 0);
  }

  // ---------------------------------------------------------------------------
  // Events

  /** The URL or query text the handler receives: percent decoded, then converted. */
  function Decode(text: string, lossy: Lossy): string
  {
    lossy(PercentDecode(Utf8(text)))
  }

  /** The events of a matched request line. */
  function LineEvents(rl: RequestLine, lossy: Lossy): seq<Event>
  {
    [Method(rl.verb), Url(Decode(rl.url, lossy))]
    + (match rl.query case None => [] case Some(q) => [Query(Decode(q, lossy))])
    + [HttpVersion(rl.version)]
  }

  /** A header line that trims to nothing ends the headers. */
  predicate Blank(line: string)
  {
    Trim(line) == []
  }

  /** A header line holds `": "` exactly once. */
  predicate ValidHeaderLine(line: string)
  {
    |Split(line, ": ")| == 2
  }

  /** The event of a valid header line: the field as written, and the comma-separated
      values, each trimmed. */
  function HeaderOf(line: string): Event
    requires ValidHeaderLine(line)
  {
    var parts := Split(line, ": ");
    Header(parts[0], TrimAll(Split(parts[1], ",")))
  }

  /** The header loop over the lines after the request line. */
  function HeaderPhase(lines: seq<string>): Outcome
    decreases |lines|
  {
    if lines == [] || Blank(lines[0]) then Outcome([], Ok(()))
    else if !ValidHeaderLine(lines[0]) then Outcome([], Err(InvalidHeaderLine(lines[0])))
    else
      var tail := HeaderPhase(lines[1..]);
      Outcome([HeaderOf(lines[0])] + tail.events, tail.result)
  }

  /** The loop reports at most one event per line. */
  lemma {:induction false} HeaderPhaseBound(lines: seq<string>)
    ensures |HeaderPhase(lines).events| <= |lines|
    decreases |lines|
  {
    if lines != [] && !Blank(lines[0]) && ValidHeaderLine(lines[0]) {
      HeaderPhaseBound(lines[1..]);
      HeaderPhaseCons(lines);
    }
  }

  /** A failure of the loop names the first line it did not report. */
  lemma {:induction false} HeaderPhaseStops(lines: seq<string>)
    ensures var o := HeaderPhase(lines);
      o.result.Err? ==> |o.events| < |lines| && o.result == Err(InvalidHeaderLine(lines[|o.events|]))
    decreases |lines|
  {
    if lines != [] && !Blank(lines[0]) && ValidHeaderLine(lines[0]) {
      var tail := HeaderPhase(lines[1..]);
      HeaderPhaseStops(lines[1..]);
      HeaderPhaseCons(lines);
      assert HeaderPhase(lines).result == tail.result;
      if tail.result.Err? {
        assert lines[1..][|tail.events|] == lines[|tail.events| + 1];
      }
    }
  }

  /** `Parser::parse` on a stream, as a value. */
  function ParseSpec(stream: string, lossy: Lossy): Outcome
  {
    var e := LineEnd(stream);
    if e == 0 then Outcome([], Ok(()))
    else
      match MatchRequestLine(stream[..e])
      case None => Outcome([MessageBegin], Err(MalformedRequestLine))
      case Some(rl) =>
        var h := HeaderPhase(Lines(stream[e..]));
        Outcome([MessageBegin] + LineEvents(rl, lossy) + h.events, h.result)
  }

  /** `parse` fails on the request line exactly when the stream is not empty and its first
      line does not match the pattern; the header loop never gives that error. */
  lemma MalformedExactly(stream: string, lossy: Lossy)
    ensures ParseSpec(stream, lossy).result == Err(MalformedRequestLine)
            <==> stream != [] && MatchRequestLine(stream[..LineEnd(stream)]).None?
  {
    var e := LineEnd(stream);
    if e > 0 && MatchRequestLine(stream[..e]).Some? {
      HeaderPhaseStops(Lines(stream[e..]));
    }
  }

  /** `Parser::parse`: reads the request line, reports it, then reports header lines until
      a blank one, the end of the stream, or an invalid one. */
  method Parse(stream: string, lossy: Lossy) returns (events: seq<Event>, result: Result<(), ParseError>)
    ensures Outcome(events, result) == ParseSpec(stream, lossy)
  {
    events := [];
    var e := LineEnd(stream);
    var requestLine := stream[..e];
    if |requestLine| == 0 {
      result := Ok(());
      return;
    }
    events := events + [MessageBegin];
    var captures := MatchRequestLine(requestLine);
    if captures.None? {
      result := Err(MalformedRequestLine);
      return;
    }
    var rl := captures.value;
    events := events + [Method(rl.verb)];
    events := events + [Url(Decode(rl.url, lossy))];
    if rl.query.Some? {
      events := events + [Query(Decode(rl.query.value, lossy))];
    }
    events := events + [HttpVersion(rl.version)];
    assert events == [MessageBegin] + LineEvents(rl, lossy);
    var headerEvents, headerResult := ParseHeaders(Lines(stream[e..]));
    events := events + headerEvents;
    result := headerResult;
  }

  /** The header loop of `parse` over the lines after the request line. */
  method ParseHeaders(lines: seq<string>) returns (events: seq<Event>, result: Result<(), ParseError>)
    ensures Outcome(events, result) == HeaderPhase(lines)
  {
    events := [];
    var i := 0;
    assert lines[0..] == lines;
    while i < |lines|
      invariant 0 <= i <= |lines|
      invariant Outcome(events + HeaderPhase(lines[i..]).events, HeaderPhase(lines[i..]).result)
             == HeaderPhase(lines)
    {
      var headerLine := lines[i];
      if |Trim(headerLine)| == 0 {
        result := Ok(());
        return;
      }
      var header := Split(headerLine, ": ");
      if |header| != 2 {
        result := Err(InvalidHeaderLine(headerLine));
        return;
      }
      var field := header[0];
      var values := TrimAll(Split(header[1], ","));
      HeaderPhaseStep(lines, i);
      events := events + [Header(field, values)];
      i := i + 1;
    }
    result := Ok(());
  }

  /** One step of the header loop. */
  lemma HeaderPhaseStep(lines: seq<string>, i: nat)
    requires i < |lines| && !Blank(lines[i]) && ValidHeaderLine(lines[i])
    ensures HeaderPhase(lines[i..])
         == Outcome([HeaderOf(lines[i])] + HeaderPhase(lines[i + 1..]).events, HeaderPhase(lines[i + 1..]).result)
  {
    assert lines[i..][1..] == lines[i + 1..];
  }

  // ---------------------------------------------------------------------------
  // Properties

  /** A stream that yields nothing is a clean end: no events and no error. Any other stream
      reports `message_begin` first. */
  lemma EmptyStream(stream: string, lossy: Lossy)
    ensures stream == [] ==> ParseSpec(stream, lossy) == Outcome([], Ok(()))
    ensures stream != [] ==> ParseSpec(stream, lossy).events != []
                             && ParseSpec(stream, lossy).events[0] == MessageBegin
  {
  }

  /** A first line that is not the rendering of any well-formed request line yields only
      `message_begin` and the malformed-line error. */
  lemma MalformedLine(stream: string, lossy: Lossy)
    requires stream != []
    requires forall rl :: WellFormed(rl) ==> Render(rl) != stream[..LineEnd(stream)]
    ensures ParseSpec(stream, lossy) == Outcome([MessageBegin], Err(MalformedRequestLine))
  {
    var line := stream[..LineEnd(stream)];
    if MatchRequestLine(line).Some? {
      MatchSound(line);
    }
  }

  /** A well-formed request line reports, in order, `message_begin`, the method, the decoded
      URL, the decoded query when there is one, and the version (`LineEvents`); then the
      header lines. */
  lemma WellFormedLine(rl: RequestLine, rest: string, lossy: Lossy)
    requires WellFormed(rl) && '\n' !in Target(rl)
    ensures ParseSpec(Render(rl) + rest, lossy)
         == Outcome([MessageBegin] + LineEvents(rl, lossy) + HeaderPhase(Lines(rest)).events,
                    HeaderPhase(Lines(rest)).result)
  {
    FirstLine(rl, rest);
    MatchComplete(rl);
  }

  /** The request line read from a rendered line is that line; the rest is left. */
  lemma FirstLine(rl: RequestLine, rest: string)
    requires WellFormed(rl) && '\n' !in Target(rl)
    ensures var s := Render(rl) + rest;
      s[..LineEnd(s)] == Render(rl) && s[LineEnd(s)..] == rest
  {
    RenderLineEnd(rl, rest);
  }

  lemma RenderLineEnd(rl: RequestLine, rest: string)
    requires WellFormed(rl) && '\n' !in Target(rl)
    ensures LineEnd(Render(rl) + rest) == |Render(rl)|
  {
    var line := Render(rl);
    var s := line + rest;
    RenderShape(rl);
    var e := |line| - 11;
    forall k | 0 <= k < |line| - 1 ensures s[k] != '\n' {
      if k < |rl.verb| {
        assert s[k] == rl.verb[k] && IsUpper(rl.verb[k]);
      } else if |rl.verb| < k < e {
        assert s[k] == Target(rl)[k - |rl.verb| - 1];
      } else if e <= k {
        assert s[k] == line[e..][k - e];
      }
    }
    FindCharIs(s, '\n', 0, |line| - 1);
  }

  /** The first `k` lines are header lines the loop reports. */
  predicate HeaderLinesBefore(lines: seq<string>, k: nat)
    requires k <= |lines|
  {
    forall j | 0 <= j < k :: !Blank(lines[j]) && ValidHeaderLine(lines[j])
  }

  /** Dropping the first of the header lines. */
  lemma HeaderLinesTail(lines: seq<string>, k: nat)
    requires 0 < k <= |lines| && HeaderLinesBefore(lines, k)
    ensures !Blank(lines[0]) && ValidHeaderLine(lines[0]) && HeaderLinesBefore(lines[1..], k - 1)
  {
    forall j | 0 <= j < k - 1 ensures !Blank(lines[1..][j]) && ValidHeaderLine(lines[1..][j]) {
      assert lines[1..][j] == lines[j + 1];
    }
  }

  /** The header loop reports one event per line up to the first line that is blank or
      invalid, each naming the line's field and its trimmed values. */
  lemma HeadersUntilStop(lines: seq<string>, k: nat)
    requires k <= |lines| && HeaderLinesBefore(lines, k)
    ensures |HeaderPhase(lines).events| >= k
    ensures forall j | 0 <= j < k :: HeaderPhase(lines).events[j] == HeaderOf(lines[j])
  {
    HeaderPhaseSkip(lines, k);
    forall j | 0 <= j < k ensures HeaderPhase(lines).events[j] == HeaderOf(lines[j]) {
      HeaderEventAt(lines, j);
    }
  }

  /** The event of one header line among those before the stop. */
  lemma {:induction false} HeaderEventAt(lines: seq<string>, j: nat)
    requires j < |lines| && HeaderLinesBefore(lines, j + 1)
    ensures |HeaderPhase(lines).events| > j && HeaderPhase(lines).events[j] == HeaderOf(lines[j])
    decreases j
  {
    HeaderLinesTail(lines, j + 1);
    HeaderPhaseCons(lines);
    if j > 0 {
      HeaderEventAt(lines[1..], j - 1);
      assert lines[1..][j - 1] == lines[j];
      ConsIndex(HeaderOf(lines[0]), HeaderPhase(lines[1..]).events, j);
    }
  }

  /** A valid first header line puts its event in front of those of the other lines. */
  lemma HeaderPhaseCons(lines: seq<string>)
    requires lines != [] && !Blank(lines[0]) && ValidHeaderLine(lines[0])
    ensures HeaderPhase(lines).events == [HeaderOf(lines[0])] + HeaderPhase(lines[1..]).events
  {
  }

  lemma ConsIndex<T>(first: T, rest: seq<T>, j: nat)
    requires 0 < j <= |rest|
    ensures ([first] + rest)[j] == rest[j - 1]
  {
  }

  /** The header loop stops at the first line that is blank or invalid: at a blank line or
      the end of the stream with no further events and no error, at an invalid line with
      no further events and an error naming that line. */
  lemma HeadersStopAt(lines: seq<string>, k: nat)
    requires k <= |lines| && HeaderLinesBefore(lines, k)
    ensures k == |lines| || Blank(lines[k]) ==>
              |HeaderPhase(lines).events| == k && HeaderPhase(lines).result == Ok(())
    ensures k < |lines| && !Blank(lines[k]) && !ValidHeaderLine(lines[k]) ==>
              |HeaderPhase(lines).events| == k && HeaderPhase(lines).result == Err(InvalidHeaderLine(lines[k]))
  {
    HeaderPhaseSkip(lines, k);
    if k < |lines| {
      assert lines[k..][0] == lines[k];
    } else {
      assert lines[k..] == [];
    }
  }

  /** Past `k` header lines, the loop goes on as it would from line `k`. */
  lemma {:induction false} HeaderPhaseSkip(lines: seq<string>, k: nat)
    requires k <= |lines| && HeaderLinesBefore(lines, k)
    ensures |HeaderPhase(lines).events| == k + |HeaderPhase(lines[k..]).events|
    ensures HeaderPhase(lines).result == HeaderPhase(lines[k..]).result
    decreases k
  {
    if k > 0 {
      HeaderLinesTail(lines, k);
      HeaderPhaseSkip(lines[1..], k - 1);
      HeaderPhaseStep(lines, 0);
      assert lines[0..] == lines;
      assert lines[1..][k - 1..] == lines[k..];
    }
  }

  /** A header line written as `Line` writes it (without the CR LF `lines()` removes) is
      reported with exactly the name and the values. */
  lemma HeaderLineEvent(name: string, vs: seq<string>)
    requires HeaderFields.ValidName(name) && |vs| >= 1
    requires forall i | 0 <= i < |vs| :: HeaderFields.ValidValue(vs[i])
    ensures ValidHeaderLine(name + ": " + Join(vs, ", "))
    ensures HeaderOf(name + ": " + Join(vs, ", ")) == Header(name, vs)
  {
    var rest := Join(vs, ", ");
    ValuesNoColonSpace(vs);
    HeaderFields.SplitNameRest(name, rest);
    ValuesPart(vs);
  }

  lemma ValuesPart(vs: seq<string>)
    requires |vs| >= 1
    requires forall i | 0 <= i < |vs| :: HeaderFields.ValidValue(vs[i])
    ensures TrimAll(Split(Join(vs, ", "), ",")) == vs
  {
    assert AllWhitespace("");
    HeaderFields.ValuesRoundTrip("", vs, "");
    EmptyAround(Join(vs, ", "));
  }

  lemma EmptyAround(a: string)
    ensures "" + a + "" == a
  {
  }

  lemma ValuesNoColonSpace(vs: seq<string>)
    requires |vs| >= 1
    requires forall i | 0 <= i < |vs| :: HeaderFields.ValidValue(vs[i])
    ensures !Contains(Join(vs, ", "), ": ")
  {
    var rest := Join(vs, ", ");
    HeaderFields.JoinedValuesFree(vs);
    assert rest == (rest + "\r\n")[..|rest|];
    if Contains(rest, ": ") {
      var j :| 0 <= j <= |rest| && OccursAt(rest, ": ", j);
      PrefixOccurs(rest + "\r\n", |rest|, ": ", j);
    }
  }

  /** Every event of the header loop is a header event. */
  lemma {:induction false} HeaderPhaseOnlyHeaders(lines: seq<string>)
    ensures forall k | 0 <= k < |HeaderPhase(lines).events| :: HeaderPhase(lines).events[k].Header?
    decreases |lines|
  {
    if lines != [] && !Blank(lines[0]) && ValidHeaderLine(lines[0]) {
      HeaderPhaseOnlyHeaders(lines[1..]);
    }
  }

  /** An event the parser may report. */
  predicate Reported(ev: Event)
  {
    !ev.Status? && !ev.Body? && !ev.HeadersComplete? && !ev.MessageComplete?
  }

  /** Every event of `evs` is one the parser may report. */
  predicate AllReported(evs: seq<Event>)
  {
    forall k | 0 <= k < |evs| :: Reported(evs[k])
  }

  /** `parse` never reports a status, a body, the end of the headers or the end of the
      message. */
  lemma NeverReported(stream: string, lossy: Lossy)
    ensures AllReported(ParseSpec(stream, lossy).events)
  {
    var e := LineEnd(stream);
    if e > 0 {
      match MatchRequestLine(stream[..e])
      case None =>
      case Some(rl) =>
        var h := HeaderPhase(Lines(stream[e..]));
        HeaderPhaseOnlyHeaders(Lines(stream[e..]));
        LineEventsReported(rl, lossy);
        ReportedConcat([MessageBegin] + LineEvents(rl, lossy), h.events);
    }
  }

  /** The events of a request line are all reportable. */
  lemma LineEventsReported(rl: RequestLine, lossy: Lossy)
    ensures AllReported([MessageBegin] + LineEvents(rl, lossy))
  {
  }

  /** Reported events followed by header events are all reportable. */
  lemma ReportedConcat(a: seq<Event>, b: seq<Event>)
    requires AllReported(a)
    requires forall k | 0 <= k < |b| :: b[k].Header?
    ensures AllReported(a + b)
  {
    forall k | 0 <= k < |a + b| ensures Reported((a + b)[k]) {
      if k >= |a| {
        assert (a + b)[k] == b[k - |a|];
      }
    }
  }

  /** Only ASCII characters. */
  predicate IsAscii(s: string)
  {
    forall k | 0 <= k < |s| :: s[k] as int < 0x80
  }

  /** A conversion that gives back any ASCII text unchanged, as the lossy UTF-8 decoder
      does. */
  ghost predicate RestoresAscii(lossy: Lossy)
  {
    forall s: string | IsAscii(s) :: lossy(Utf8(s)) == s
  }

  /** An ASCII URL or query without `%` reaches the handler exactly as written. */
  lemma PlainTextDecoded(text: string, lossy: Lossy)
    requires RestoresAscii(lossy) && IsAscii(text) && '%' !in text
    ensures Decode(text, lossy) == text
  {
    Utf8AsciiByte(text, Percent);
    DecodeWithoutPercent(Utf8(text));
  }
}
