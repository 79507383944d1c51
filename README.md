# A static-file HTTP/1.0 server, modelled in Dafny

This project models the request path of a small HTTP/1.0 server that serves a directory
tree. A worker hands each connection's stream to a streaming parser. The parser reads one
request line and then header lines. It reports what it reads as callbacks to a collector
(`HttpParserHandler`). The collector builds a `Request` from what it collected: the URL
split into path components, an optional parsed query, and a header multimap. A handler
joins the document root with the path components and asks the file system about the
result. It then answers through a one-shot `Response`: a 404 page, a 500 page, the file
itself, or (in directory mode) an HTML listing of the directory.

Modules, one per source file plus shared helpers:

- `Wrappers`: `Option` and `Result`.
- `Text`: the string functions the program relies on: `str::split`, joining, `str::trim`,
  decimal formatting, `u16` parsing and UTF-8 encoding.
- `MultiMaps`: `map<string, seq<string>>`, the `HashMap<String, Vec<String>>` that headers
  and queries use. It also holds `IsEnumeration`, one possible iteration order of a map's
  keys. Each operation that iterates a `HashMap` takes that order as a parameter, because
  the program does not fix it.
- `PercentCoding`: percent decoding, and percent encoding with the default encode set.
- `HeaderFields` (`src/headers.rs`): the class `Headers`.
- `QueryStrings` (`src/query.rs`): the datatype `Query`, with parsing and formatting.
- `Requests` (`src/request.rs`): the immutable `Request` record.
- `RequestParser` (`src/parser.rs`): `parse`. Its result is the list of events it reports
  and how it ends.
- `Server` (`src/server.rs`): the class `HttpParserHandler`, its callbacks and
  `build_request`.
- `Responses` (`src/response.rs`): the class `Response`. Each method is proved against a
  pure state machine on `ResponseState`.
- `Handlers` (`src/handler.rs`): the two `handle_request` implementations and their helpers.
  Each is proved against a `Plan`: what the handler sets and writes, or the error it
  returns first.

The file system (`fs::metadata`, `File::open` with the copy, the output of `ls`), the MIME
table, the clock (`Date`) and the lossy UTF-8 conversion are parameters. Each handler
method's contract gives the response's whole new state in terms of them.

## Model

| member | source | states |
|---|---|---|
| MultiMaps.Appended | src/headers.rs:34-37 | after an append, the keys are the old keys plus `k`; `k`'s list is its old list (empty if absent) followed by the new values; every other key keeps its list |
| MultiMaps.AppendedTwice | src/headers.rs:26-29 | appending values in two steps equals appending their concatenation once, so pushing values one at a time in a loop gives the whole list |
| MultiMaps.EnumerationExists | src/headers.rs:71 | every finite key set has an iteration order that lists each key exactly once |
| MultiMaps.Enumerate | src/headers.rs:71 | returns an iteration order of the given keys: each key exactly once, nothing else |
| Text.Split | src/request.rs:26 | a split always has at least one piece |
| Text.JoinSplit | src/request.rs:26 | joining the pieces of a split with the pattern gives the string back |
| Text.SplitJoinInverse | src/request.rs:26 | splitting a join of pieces that do not contain the pattern gives back exactly those pieces |
| Text.SplitCharCount | src/request.rs:26 | a split on one character has one more piece than the string has occurrences of that character |
| Text.Trim | src/headers.rs:27-28 | a trimmed string has no whitespace at either end |
| Text.TrimBlank | src/parser.rs:94 | a line trims to nothing exactly when it is all whitespace |
| Text.TrimPadded | src/headers.rs:28 | trimming removes exactly the whitespace padding around a core that is already trimmed |
| Text.NatToDecimal | src/handler.rs:60 | `len().to_string()` is a string of digits, without a leading zero unless the number is 0, whose decimal value is the number |
| Text.IntToDecimal | src/handler.rs:81 | a status code is formatted with a minus sign exactly when it is negative, followed by the digits of its absolute value |
| Text.ParseU16 | src/server.rs:25 | the parse succeeds exactly when, after an optional `+`, one or more ASCII digits follow whose value is below 65536, and then gives that value |
| Text.ParseU16Accepts | src/server.rs:25 | `+007` parses to 7 and `65535` to 65535 |
| Text.ParseU16Refuses | src/server.rs:25 | `""`, `+`, `-1` and `65536` do not parse |
| Text.ParseU16Decimal | src/server.rs:25 | formatting a 16-bit number in decimal and parsing it back gives the same number |
| Text.Utf8Concat | src/response.rs:87-91 | the UTF-8 encoding of a concatenation is the concatenation of the encodings |
| PercentCoding.InDefaultEncodeSet | src/handler.rs:157 | `DEFAULT_ENCODE_SET` escapes every C0 control, DEL and non-ASCII byte, and never an ASCII letter or digit, `%`, `/`, `-`, `.`, `_` or `~` |
| PercentCoding.PercentEncode | src/handler.rs:155-158 | the encoding is at least as long as its input and contains no byte of the default encode set |
| PercentCoding.PercentDecode | src/parser.rs:67-69 | decoding never makes the input longer |
| PercentCoding.DecodeEncode | src/handler.rs:155-158 | decoding undoes encoding when the input has no `%` |
| PercentCoding.DecodeWithoutPercent | src/parser.rs:67-69 | input without `%` is left unchanged by decoding |
| PercentCoding.EncodeSafeBytes | src/handler.rs:155-158 | bytes outside the encode set pass through encoding unchanged |
| PercentCoding.EncodeConcat | src/handler.rs:155-158 | encoding distributes over concatenation |
| HeaderFields.Headers.constructor | src/headers.rs:10-14 | a new header map has no names |
| HeaderFields.Headers.WithData | src/headers.rs:16-20 | the map holds exactly the given data |
| HeaderFields.Headers.Parse | src/headers.rs:22-32 | the line is split on `": "`; the trimmed first piece names the header; the trimmed comma-separated pieces of the second piece are appended to that name's list, in order |
| HeaderFields.Headers.Insert | src/headers.rs:34-37 | the value goes to the end of the name's list, which is created when absent; no other name changes |
| HeaderFields.Headers.Find | src/headers.rs:39-51 | `None` exactly when the name is absent or its list is empty; otherwise the whole list in order |
| HeaderFields.Headers.Has | src/headers.rs:53-55 | true whenever `find` gives a list, and also for a present name whose list is empty; false only when `find` gives `None` |
| HeaderFields.Headers.All | src/headers.rs:57-64 | one pair per name, each with its whole list, no name twice, and every name covered |
| HeaderFields.Headers.ToString | src/headers.rs:67-87 | the text is `name: v1, v2` and CRLF for each name in iteration order, stopping before the first name whose list is empty |
| HeaderFields.WriteLine | src/headers.rs:72-82 | the line for a name with a non-empty list is `name: ` followed by its values joined by `, ` |
| HeaderFields.FormatIsLines | src/headers.rs:67-87 | with no empty list, the text is the concatenation of one line per name |
| HeaderFields.FormatStopsAtEmpty | src/headers.rs:75 | a name with an empty list cuts the text off: nothing from it or any later name is written |
| HeaderFields.ValuesRoundTrip | src/headers.rs:26-28 | values joined with `, ` and padded with whitespace split on `,` and trim back to exactly those values |
| HeaderFields.LineRoundTrip | src/headers.rs:22-32 | `parse` of the line `to_string` writes for one name appends exactly that name's values |
| HeaderFields.FormatRoundTrip | src/headers.rs:67-87 | parsing the formatted lines one by one into an empty map gives the original map back, when names and values contain no `": "`, values no `,`, both are trimmed, and no list is empty |
| QueryStrings.New | src/query.rs:13-18 | a new query has no parameters and no query string |
| QueryStrings.Query.Get | src/query.rs:40-51 | a list exactly when the name is present with a non-empty list, and then that whole list |
| QueryStrings.PieceCapture | src/query.rs:25-31 | an `&`-free piece yields a capture with a non-empty key free of `=` and `&`, and yields none exactly when the piece is all `=` |
| QueryStrings.Captures | src/query.rs:25 | every match has a valid key and a value without `&` |
| QueryStrings.ParseQuery | src/query.rs:20-38 | `from_str` with the corrected pattern of Findings: never stores the query text; its parameters are stated by `BlankQuery` and `ParsedParameters` |
| QueryStrings.FromStr | src/query.rs:20-38 | the loop over the matches builds the same query as the value-level definition, with no query string |
| QueryStrings.CollectKeys | src/query.rs:29 | collecting the matches adds exactly the captured keys |
| QueryStrings.CollectValues | src/query.rs:28-30 | each key's list grows by that key's captured values, in order of appearance, and a missing value counts as `""` |
| QueryStrings.KeysOfParam | src/query.rs:64-80 | the keys captured from one key's `name=value` pairs are exactly its parameter name, or none when it has no values |
| QueryStrings.BlankQuery | src/query.rs:23 | a blank query string gives no parameters |
| QueryStrings.ParsedParameters | src/query.rs:23-31 | a non-blank query string holds exactly the captured keys, each with its captured values in order |
| QueryStrings.KeyWithoutValue | src/query.rs:28 | a piece without `=` is a key whose value is `""` |
| QueryStrings.KeyWithValue | src/query.rs:26-28 | a piece `key=value` is captured as that key and that value |
| QueryStrings.QueryStringAbsent | src/query.rs:53-58 | `query_string()` is `None` for a new query and for a parsed one, because neither constructor stores the text |
| QueryStrings.ParamName | src/query.rs:64-67 | `[]` is added to the key exactly when there are two or more values |
| QueryStrings.FormatQueryParam | src/query.rs:61-80 | building the text value by value gives `""` for no values, and otherwise one `name=value` per value joined by `&` |
| QueryStrings.ParamWithoutValues | src/query.rs:72 | a key without values writes nothing |
| QueryStrings.FormatEmpty | src/query.rs:89 | an empty query formats to `""` |
| QueryStrings.ParamNameInjective | src/query.rs:64-67 | distinct keys that do not end in `[]` keep distinct parameter names, whatever their values |
| QueryStrings.Query.ToString | src/query.rs:82-98 | the text is each key's parameter text, in iteration order, separated by `&` |
| QueryStrings.FormatIsPairs | src/query.rs:82-98 | with no empty list, the text is all `name=value` pairs of all keys joined by `&` |
| QueryStrings.FormatRoundTrip | src/query.rs:20-98 | parsing the formatted text gives exactly the parameter names of the keys, and each name reads back the key's whole value list, when every key is non-empty, contains neither `=` nor `&` and does not end in `[]`, no value contains `&` (a value may contain `=`), and no list is empty |
| QueryStrings.EmptyRoundTrip | src/query.rs:82-98 | an empty query formats and parses back to an empty query |
| QueryStrings.RoundTripValue | src/query.rs:20-98 | after formatting and parsing, any one key's parameter name reads back that key's values |
| QueryStrings.FromStrAsWritten | src/query.rs:20-38 | the program as written: a blank string gives an empty query, any other string fails in the pattern compilation; a result never has a query string |
| QueryStrings.PatternAsWrittenUnbalanced | src/query.rs:24 | the written pattern closes a group it never opened |
| QueryStrings.AsWrittenRejectsEveryQuery | src/query.rs:23-24 | as written, every non-blank query string, such as `a=1`, makes `from_str` fail |
| QueryStrings.PatternIntendedBalanced | src/query.rs:24 | the corrected pattern `([^=&]+)(=([^&]*))?` is well formed |
| QueryStrings.PatternIntendedGroups | src/query.rs:26-28 | the corrected pattern has the three groups the loop reads |
| QueryStrings.IntendedReadsPair | src/query.rs:20-38 | under the corrected pattern, `key=value` parses to that single key with that single value |
| QueryStrings.SinglePairCaptures | src/query.rs:25 | a lone `key=value` yields exactly that single match |
| Requests.New | src/request.rs:21-39 | the components are `/`-free, they join back with `/` to the URL without its first character, there is one more of them than that text has `/`, and every other field is the argument given |
| Requests.ComponentsOfJoin | src/request.rs:26 | a URL made of `/`-free pieces after its first character is split into exactly those pieces |
| Requests.RootPath | src/request.rs:26 | `/` has the single empty component |
| Requests.TrailingSlash | src/request.rs:26 | `/a/` has the components `a` and `""` |
| Requests.AccessorsReturnArguments | src/request.rs:41-79 | `http_version`, `method`, `scheme`, `path`, `query`, `content_length` and `headers` return what the constructor was given, and `path_components` returns the split of the URL |
| RequestParser.MatchRequestLine | src/parser.rs:58-62 | the definition of what the pattern `^([A-Z]*?) ([^?]+)(\?([^#]+))? HTTP/(\d\.\d)\r\n$` captures on a line; `MatchComplete` and `MatchSound` state that it matches exactly the well-formed lines, with their own parts |
| RequestParser.UpperEnd | src/parser.rs:59 | the lazy method group ends at the first character that is not an upper-case ASCII letter |
| RequestParser.MatchComplete | src/parser.rs:58-62 | the request-line pattern matches every well-formed request line, with exactly its method, URL, query and version |
| RequestParser.MatchSound | src/parser.rs:58-62 | whatever the pattern matches is a well-formed request line, and the text is exactly its rendering |
| RequestParser.LineEnd | src/parser.rs:50 | `read_line` takes the stream through its first line feed, or the whole stream when there is none; something from a non-empty stream |
| RequestParser.Lines | src/parser.rs:90 | no line yielded by `lines()` contains a line feed, and nothing is yielded exactly for an empty rest |
| RequestParser.LinesLf | src/parser.rs:90 | a line ended by a bare line feed, and not ending in a carriage return, is yielded without the line feed, and the rest follows |
| RequestParser.LinesCrLf | src/parser.rs:90 | a line ended by CR LF is yielded without them, and the rest follows |
| RequestParser.LinesLast | src/parser.rs:90 | a final piece without a line feed is yielded whole |
| RequestParser.HeaderPhase | src/parser.rs:90-116 | the definition of the header loop: stop cleanly at the end or at a blank line, fail on a line without exactly one `": "`, otherwise report the line's header event and go on; `HeadersUntilStop`, `HeadersStopAt`, `HeaderPhaseBound` and `HeaderPhaseStops` state its results |
| RequestParser.HeaderPhaseBound | src/parser.rs:90-116 | the header loop reports at most one event per line |
| RequestParser.HeaderPhaseStops | src/parser.rs:99-105 | a failure of the header loop names the first line it did not report |
| RequestParser.ParseSpec | src/parser.rs:46-119 | the definition of `parse` as a value: nothing for an empty stream; `message_begin`, then either the malformed-request error or the request line's events followed by the header loop on the remaining lines; `Parse`, `EmptyStream`, `MalformedLine`, `WellFormedLine` and `MalformedExactly` state its results |
| RequestParser.MalformedExactly | src/parser.rs:52-87 | `parse` fails with a malformed request line exactly when the stream is not empty and its first line does not match the pattern |
| RequestParser.Parse | src/parser.rs:46-119 | the events reported and the result of `parse` on a stream are those of the value-level definition |
| RequestParser.ParseHeaders | src/parser.rs:90-116 | the header loop reports and returns what the value-level header phase does |
| RequestParser.EmptyStream | src/parser.rs:52-54 | an empty stream gives no events and no error; any other stream reports at least `message_begin` |
| RequestParser.MalformedLine | src/parser.rs:83-86 | a first line that is not a well-formed request line reports only `message_begin` and fails with a malformed-request error |
| RequestParser.WellFormedLine | src/parser.rs:56-87 | a well-formed request line reports, in order, `message_begin`, the method, the decoded URL, the decoded query if there is one, and the version; then the header loop runs on the rest |
| RequestParser.HeadersUntilStop | src/parser.rs:90-110 | while the lines are valid header lines, the loop reports one header event per line, in order, each naming the line's field and its trimmed values |
| RequestParser.HeaderEventAt | src/parser.rs:97-110 | after valid header lines up to and including line `j`, the `j`-th event is that line's header event |
| RequestParser.HeadersStopAt | src/parser.rs:90-110 | after valid header lines, a blank line or the end of the stream ends the loop cleanly with exactly those events; an invalid line ends it with an error naming that line and no further event |
| RequestParser.HeaderLineEvent | src/parser.rs:97-110 | a header line written the way `Headers::to_string` writes it is valid and reports exactly that name and values |
| RequestParser.HeaderPhaseOnlyHeaders | src/parser.rs:90-116 | the header loop reports only header events |
| RequestParser.NeverReported | src/parser.rs:46-119 | `parse` never reports a status, a body, the end of the headers or the end of the message |
| RequestParser.PlainTextDecoded | src/parser.rs:67-69 | an ASCII URL or query without `%` reaches the callback exactly as written |
| Server.HttpParserHandler.constructor | src/server.rs:13-20 | the collector starts with every field at its default |
| Server.HttpParserHandler.OnMethod | src/server.rs:41-44 | the method is overwritten, nothing else changes, and the result is `Ok` |
| Server.HttpParserHandler.OnUrl | src/server.rs:46-49 | the URL is overwritten, nothing else changes, and the result is `Ok` |
| Server.HttpParserHandler.OnQuery | src/server.rs:51-54 | the query becomes the given text, nothing else changes, and the result is `Ok` |
| Server.HttpParserHandler.OnHttpVersion | src/server.rs:56-59 | the version is overwritten, nothing else changes, and the result is `Ok` |
| Server.HttpParserHandler.OnHeader | src/server.rs:61-64 | the field's earlier values are replaced by the new ones, nothing else changes, and the result is `Ok` |
| Server.HttpParserHandler.OnEvent | src/parser.rs:24-35 | each event reaches its own callback; the callbacks the collector does not override change nothing; none fails |
| Server.HttpParserHandler.Replay | src/server.rs:40-65 | a sequence of events leaves the collector as the value-level fold over the events does, and none fails |
| Server.Build | src/server.rs:23-37 | `build_request` with the query parsed by the corrected pattern of "## Findings" (as written, a non-blank query panics: `BuildAsWritten`): a request is built exactly when the version has two `.`-separated parts that parse as `u16` and the URL can be sliced after its first character; then it has that version, the collected method, URL and headers, scheme `http`, no content length, and the parsed query exactly when one was collected |
| Server.BuildAsWritten | src/server.rs:23-37 | the definition of `build_request` as written: a bad version fails first, then a collected query goes through `from_str` with the written pattern, whose compile failure is `BadPattern`; `AsWrittenQueryPanics` and `AsWrittenAgreesWithoutQuery` state its outcomes |
| Server.AsWrittenQueryPanics | src/server.rs:24-26 | as written, fields holding a non-blank query never build a request, such as the one collected from `GET /a?x=1 HTTP/1.0`; the failure is the query pattern exactly when the version parses |
| Server.AsWrittenAgreesWithoutQuery | src/server.rs:23-37 | without a collected query, or with a blank one, the program as written builds what `Build` builds |
| Server.DefaultBuildFails | src/server.rs:24-25 | with nothing collected, no request can be built |
| Server.AbsorbHeaders | src/server.rs:61-64 | header events change only the headers |
| Server.LastHeaderWins | src/server.rs:62 | the last header event for a field decides its values, whatever other fields are reported later |
| Server.VersionParses | src/server.rs:24-25 | a version of the form digit `.` digit parses into those two digits |
| Server.Received | src/server.rs:118-124 | the definition of what a worker builds: the collector absorbs every event the parse reports and `build_request` runs whatever the parse result was; `NoRequestLineNoRequest` and `WellFormedRequest` state its outcomes |
| Server.NoRequestLineNoRequest | src/server.rs:118-124 | an empty stream or a first line that is not a request line yields no request |
| Server.WellFormedRequest | src/server.rs:118-124 | with the corrected query pattern of "## Findings" (as written, a line with a non-blank query builds nothing: `AsWrittenQueryPanics`): after a well-formed request line, a request is built exactly when the decoded URL can be sliced; it carries the line's method, the decoded URL, the digits of the version, and a query exactly when the line had one |
| Server.LineFields | src/parser.rs:56-81 | the events of a request line set the method, the decoded URL, the version and the decoded query, if there is one |
| Responses.SetStatus | src/response.rs:58-66 | `with_status` succeeds exactly before the start; then it sets the code and text and nothing else; once started it fails and changes nothing |
| Responses.AddHeader | src/response.rs:68-74 | `with_header` succeeds exactly before the start; then it appends the value to that name's list and keeps every other name's; once started it fails and changes nothing |
| Responses.StartSpec | src/response.rs:76-96 | the definition of `start` as a state change: refused once started, otherwise `Date` and `Connection` are added, the head and the body are written after the earlier output, and the connection is shut down; `StartIsOneShot`, `StartResult`, `StartAddsDateAndConnection` and `StartOutput` state its properties |
| Responses.Response.FromStream | src/response.rs:20-31 | a new response is `HTTP/1.0 200 OK` with no headers, nothing written and not started, with a header map of its own |
| Responses.Response.HttpVersionText | src/response.rs:37-43 | the text is `HTTP/` followed by the version, and it is how the status line starts |
| Responses.Response.WithHttpVersion | src/response.rs:45-52 | the effect is that of the state machine's version setter |
| Responses.Response.WithStatus | src/response.rs:58-66 | the effect is that of the state machine's status setter |
| Responses.Response.WithHeader | src/response.rs:68-74 | the effect is that of the state machine's header setter |
| Responses.Response.AddStartHeaders | src/response.rs:82-83 | `Date` gets the given date and `Connection` gets `close`, each appended after the values already present |
| Responses.Response.WriteHead | src/response.rs:87-91 | the bytes written are the status line, the headers in an iteration order of the map, and the blank line; the response is not changed |
| Responses.Response.WriteAll | src/response.rs:82-95 | the state becomes the started state: `Date` and `Connection` added, head and body written after the earlier output, started and shut down; the result is the shutdown's error if any, else the callback's |
| Responses.Response.Start | src/response.rs:76-96 | the effect is that of the state machine's `start`, for an iteration order of the final header map |
| Responses.StartedRefusesEverything | src/response.rs:46-48 | once started, every setter and `start` itself fail and change nothing |
| Responses.SettersBeforeStart | src/response.rs:45-74 | before the start, each setter succeeds and changes only its own field; a header value is appended to its name's list |
| Responses.StartIsOneShot | src/response.rs:78-85 | after `start`, the response is started and shut down, and a second `start` fails and changes nothing |
| Responses.StartResult | src/response.rs:93-95 | `start` succeeds exactly when the callback and the shutdown both succeed; a shutdown error wins over the callback's error |
| Responses.StartAddsDateAndConnection | src/response.rs:82-83 | `start` appends exactly one `Date` value and then one `close` under `Connection`, after any values the handler set; every other header keeps its list |
| Responses.ReachableKept | src/response.rs:20-96 | every header list of a response is non-empty: true of a fresh response and kept by every operation |
| Responses.StartOutput | src/response.rs:87-93 | a start writes the status line, one complete line per header, the blank line and the body, after what was written before |
| Responses.StartHeadersReadBack | src/response.rs:90 | parsed line by line, the header block a start writes gives back the header map, `Date` and `Connection` included, when its names and values can be read back |
| Responses.FreshStatusLine | src/response.rs:24-26 | the status line of a fresh response is `HTTP/1.0 200 OK` |
| Responses.NotFoundStatusLine | src/response.rs:58-66 | after setting 404 `Not Found`, the status line is `HTTP/1.0 404 Not Found` |
| Handlers.JoinPath | src/handler.rs:47 | the definition of `PathBuf::join` on Unix: an absolute component replaces the path; any other is put after the path, with a `/` between unless the path is empty or already ends in `/` |
| Handlers.JoinPathLaws | src/handler.rs:47 | an absolute component replaces the base; any other keeps the base as a prefix and ends with the component; an empty one leaves a trailing `/` on a non-empty base |
| Handlers.Resource | src/handler.rs:44-48 | the definition of the resource path: the root joined with each path component in turn |
| Handlers.ResourceKeepsRoot | src/handler.rs:44-48 | when no component is absolute, the resource path starts with the root |
| Handlers.GetResourceAndMetadata | src/handler.rs:43-53 | the resource is the root joined with each path component, and the metadata is what the file system reports for it |
| Handlers.ResourceOfPlainComponents | src/handler.rs:44-48 | non-empty `/`-free components under a root not ending in `/` give the root, `/`, and the components joined by `/` |
| Handlers.RootResource | src/handler.rs:44-48 | the URL `/` names the root itself, with a trailing `/` |
| Handlers.ParentComponentLeavesRoot | src/handler.rs:46-48 | a `..` component is joined like any other, whatever comes before and after it, so nothing keeps a request inside the root |
| Handlers.UrlNamesResource | src/handler.rs:43-48 | a URL made of plain pieces names the root, `/`, and those pieces joined by `/` |
| Handlers.SendNotFound | src/handler.rs:69-76 | the response becomes 404 `Not Found` and is started with the body `404 - Not Found` |
| Handlers.NotFoundBody | src/handler.rs:69-85 | the literal body `404 - Not Found` of `send_not_found` is exactly what `send_error(404, "Not Found")` formats, so the 404 page is that error page |
| Handlers.SendError | src/handler.rs:78-85 | the response gets the given status and description and is started with the body `<status> - <description>` |
| Handlers.SendLookupError | src/handler.rs:90-98 | a missing resource sends the 404 page, any other metadata error the 500 page `Internal Server Error` |
| Handlers.SendFile | src/handler.rs:55-67 | an open failure is returned before the response is touched; otherwise `Content-Type` and `Content-Length` are set and the response is started with the file's bytes |
| Handlers.FileResponse | src/handler.rs:55-67 | a file response succeeds, keeps the status, appends the MIME type under `Content-Type` and the decimal length under `Content-Length` (which reads back as the length), and ends its output with the file's bytes |
| Handlers.FileOpenFailureLeavesResponse | src/handler.rs:56 | a file that cannot be opened leaves the response unchanged and returns the error |
| Handlers.NotFoundPage | src/handler.rs:69-76 | on a fresh response the 404 page succeeds, has the status line `HTTP/1.0 404 Not Found`, and its output is the head followed by `404 - Not Found` |
| Handlers.ErrorPage | src/handler.rs:78-85 | an error page succeeds, carries the code and description in its status, and its output ends with the code, ` - ` and the description |
| Handlers.RenderItem | src/handler.rs:153-160 | the bytes written for one entry are the item: a link to the percent-encoded request path plus name, followed by the name |
| Handlers.RenderEntry | src/handler.rs:144-160 | for a non-empty name, either the metadata failure that ends the listing, or the entry's item followed by the items of the remaining names |
| Handlers.ItemsFrom | src/handler.rs:143-161 | the definition of the listing items from entry `i` on: empty names skipped, one item per name, stopping at the first metadata failure; `ItemsComplete`, `ItemsStopAtFailure` and `ItemsSucceedExactly` state its result |
| Handlers.RenderItems | src/handler.rs:143-161 | the loop writes one item per non-empty name, with a trailing `/` for directories, and stops with the first metadata error |
| Handlers.RenderListing | src/handler.rs:141-167 | the callback writes the opening literal, the items, and the closing literal unless an entry failed, and returns the first failure |
| Handlers.SendListing | src/handler.rs:139-167 | the HTML content type is set, then the response is started with the listing |
| Handlers.PlanFor | src/handler.rs:88-169 | the definition of what either `handle_request` does for the resource's metadata: the 404 or 500 page for a failed lookup, the 404 page for a non-file in file mode, the listing for a non-file in directory mode, the file otherwise |
| Handlers.PlanShape | src/handler.rs:88-169 | a status is set exactly for a failed lookup or, in file mode, a non-file, and it is then 404 `Not Found` or 500 `Internal Server Error` with no header field added; the handler returns an error without answering only when the resource is a file that cannot be opened |
| Handlers.HandleFileMode | src/handler.rs:88-107 | a missing resource gives the 404 page, any other metadata error the 500 page, a non-file the 404 page, a file the file itself |
| Handlers.HandleDirectoryMode | src/handler.rs:109-169 | a missing resource gives the 404 page, any other metadata error the 500 page, a file the file itself, and anything else the listing |
| Handlers.ModesDifferOnlyOnNonFiles | src/handler.rs:88-169 | the two modes answer alike, except for a resource that exists and is not a file: file mode then sends the 404 page and directory mode the listing |
| Handlers.FileModeNotFoundExactly | src/handler.rs:90-103 | in file mode the 404 page is sent exactly when the resource is missing or is not a file; a different metadata error gives 500 `Internal Server Error` |
| Handlers.ItemLink | src/handler.rs:153-160 | an item is the literal pieces around the link and the name; the link has no `"` byte, and it decodes back to the request path plus the name when these have no `%` |
| Handlers.ItemsComplete | src/handler.rs:143-161 | when every non-empty name has metadata, the items end without error |
| Handlers.ItemsStopAtFailure | src/handler.rs:147 | the items stop at the first non-empty name whose metadata fails, with that error |
| Handlers.ItemsSucceedExactly | src/handler.rs:143-161 | the items succeed exactly when every non-empty name's metadata can be read |
| Handlers.ListingSucceedsExactly | src/handler.rs:141-167 | a listing succeeds exactly when every entry printed by `ls` has readable metadata |
| Handlers.ListingFrame | src/handler.rs:142-163 | a listing starts with the opening literal and, when it succeeds, ends with the closing literal |
| Handlers.EmptyListing | src/handler.rs:142-163 | an empty directory lists as the opening literal followed by the closing literal |
| Handlers.OneEntryListing | src/handler.rs:142-163 | a directory with one entry lists as the opening literal, that entry's item and the closing literal |

## Left out

- Sockets, threads and the server's accept loop (`HttpServer`, `src/server.rs:67-148` apart from `HttpParserHandler` and `build_request`). `src/main.rs` and `src/lib.rs` are not part of this model.
- I/O errors while reading the stream. The stream is a string: `read_line` and `lines()` cannot fail, and invalid UTF-8 is not modelled.
- Write errors and `BufWriter` buffering in `start` and in the handlers' callbacks. Writes always succeed. `flush` is not modelled. The callback's result and the shutdown result are parameters. A response's `output` is the bytes handed to the writer, not what the peer receives: `start` shuts the socket down through `get_mut()` without flushing, so when a callback fails before its own `flush()` (the listing's `fs::metadata` failure at `src/handler.rs:147`) the buffered head and items never reach the peer.
- `io::copy` in `send_file`: the file system's `open` gives the file's whole contents or the error opening it. An error in the middle of the copy is not modelled.
- The clock: the `Date` value is a parameter. Its RFC 822 format is not modelled.
- The MIME table: it is a function parameter of `ServerHandler`.
- Running `ls`. Its output is a function parameter. The panics when `ls` cannot be started or exits with failure are not modelled.
- `String::from_utf8_lossy` after percent decoding is a function parameter (`Lossy`). `PlainTextDecoded` assumes only that it restores ASCII.
- `Request::host`, `remote_addr` and `body`, which read the socket; the `http_version()` and `status()` getters of `Response`; the `Display` and `Error` impls of `ParseError`.
- Regular expressions in general. The request-line pattern of `src/parser.rs:59` and the query pattern are modelled by the matching functions they denote. The model narrows the pattern's `\d`, which the regex crate reads as any Unicode decimal digit (`\p{Nd}`), to the ASCII digits: a version such as `١.٠` matches the program's pattern (and then makes the `u16` parse of `build_request` panic), whereas `MatchRequestLine` treats that line as a malformed request line. Whitespace for `trim` is Unicode White_Space.
- Panics are error results. Setters and `start` on a started response return `AlreadyStarted`. `build_request` on a bad version or an unsliceable URL returns `BadVersion` or `BadUrl`. The query pattern's compile failure is `UnopenedGroup` in `FromStrAsWritten` and `BadPattern` in `Server.BuildAsWritten`.
- HeaderFields.Headers.Parse: a line without `": "` makes the program panic on `header[1]`; the model requires the separator instead of modelling that panic.
- Iteration order of a `HashMap`: every operation that iterates one is modelled for any order that lists each key once. The proofs hold for every such order, and the order in which `Headers::to_string` writes the map is not fixed.
- `src/handler.rs` does not compile as written: `get_resourc_and_metadata`, `get_resource_and-metadat`, `File::open%`, `rest.flush()`, `res.flush` without a call, `jain`, `send-file`, `command::new`, `ErrorKind::Notfound`, `metadat`, and `impl Handler for serverHandler<FileMode>`. Each is modelled as the evidently meant name or call.
- The listing HTML is kept byte for byte as written, including the opening `<html><body<ul` and the `<li>` that closes each item.
- After the parser reports an invalid header line, the worker still builds a request from what was collected and handles it (`src/server.rs:120-127`). `Received` models this: the parse result is not consulted.
- A header event replaces any earlier values of the same field (`HashMap::insert`) instead of appending to them (`Server.LastHeaderWins`).
- Server.Build: the request path (`Build`, `Received`, `WellFormedRequest` and the handlers after them) parses a collected query with the corrected pattern of "## Findings". As written, `build_request` reaches `Query::from_str` (`src/server.rs:26`) whose pattern does not compile, so every request with a non-blank query panics the worker thread and no request is built (`Server.BuildAsWritten`, `Server.AsWrittenQueryPanics`).
- Requests.New requires a URL whose first character is one byte long, as `url[1..]` does; `build_request` checks this and returns `BadUrl` where the program would panic.

## Findings

| source | as written | input that shows it | evidently intended | confidence | as-written member | corrected member |
|---|---|---|---|---|---|---|
| src/query.rs:24 | the pattern `([^=&]+)([^&]*))?` closes a group it never opened, so `Regex::new(...).unwrap()` panics on every non-blank query string, and `build_request` (`src/server.rs:26`) never builds a request that has one | the query string `a=1` | `([^=&]+)(=([^&]*))?`: group 1 the key, group 3 the value, as `cap.at(1)` and `cap.at(3)` read them | not executed | QueryStrings.FromStrAsWritten, QueryStrings.PatternAsWrittenUnbalanced, QueryStrings.AsWrittenRejectsEveryQuery, Server.BuildAsWritten, Server.AsWrittenQueryPanics | QueryStrings.ParseQuery, QueryStrings.PatternIntendedBalanced, QueryStrings.PatternIntendedGroups, QueryStrings.IntendedReadsPair |
