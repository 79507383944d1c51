/** The request a connection's events are assembled into: an immutable record whose
    constructor splits the URL into path components. */
module Requests {
  import opened Wrappers
  import opened Text
  import opened MultiMaps
  import QueryStrings

  type u16 = n: int | 0 <= n < 0x1_0000
  type u64 = n: int | 0 <= n < 0x1_0000_0000_0000_0000

  /** A request. `path` is the URL as received, `pathComponents` its pieces. */
  datatype Request = Request(
    httpVersion: (u16, u16),
    httpMethod: string,
    scheme: string,
    pathComponents: seq<string>,
    path: string,
    query: Option<QueryStrings.Query>,
    headers: MultiMap,
    contentLength: Option<u64>)
  {
    function HttpVersion(): (u16, u16) { httpVersion }
    function Method(): string { httpMethod }
    function Scheme(): string { scheme }
    function Path(): string { path }
    function PathComponents(): seq<string> { pathComponents }
    function Query(): Option<QueryStrings.Query> { query }
    function ContentLength(): Option<u64> { contentLength }
    function Headers(): MultiMap { headers }
  }

  /** Whether `Request::new` can slice `url[1..]`: the URL has a first character, and that
      character is a single UTF-8 byte, so byte offset 1 is a character boundary. */
  predicate Sliceable(url: string)
  {
    url != [] && url[0] as int < 0x80
  }

  /** `Request::new`: the URL without its first character, split on every `/`, with empty
      pieces kept. */
  function New(httpMethod: string, scheme: string, url: string, query: Option<QueryStrings.Query>,
               version: (u16, u16), headers: MultiMap, contentLength: Option<u64>): (r: Request)
    requires Sliceable(url)
    ensures Join(r.pathComponents, "/") == url[1..]
    ensures forall i | 0 <= i < |r.pathComponents| :: '/' !in r.pathComponents[i]
    ensures |r.pathComponents| == multiset(url[1..])['/'] + 1
    ensures r.path == url && r.httpMethod == httpMethod && r.scheme == scheme && r.query == query
    ensures r.httpVersion == version && r.headers == headers && r.contentLength == contentLength
  {
    var components := Split(url[1..], "/");
    JoinSplit(url[1..], "/");
    SplitPiecesFree(url[1..], "/");
    forall i | 0 <= i < |components| ensures '/' !in components[i] {
      ContainsChar(components[i], '/');
    }
    SplitCharCount(url[1..], '/');
    Request(version, httpMethod, scheme, components, url, query, headers, contentLength)
  }

  /** The components are the only `/`-free pieces that join back to the URL: a URL made of
      `/`-free pieces after its first character is split into exactly those pieces. */
  lemma ComponentsOfJoin(first: char, pieces: seq<string>, httpMethod: string, query: Option<QueryStrings.Query>,
                         version: (u16, u16), headers: MultiMap)
    requires first as int < 0x80 && |pieces| >= 1
    requires forall i | 0 <= i < |pieces| :: '/' !in pieces[i]
    ensures New(httpMethod, "http", [first] + Join(pieces, "/"), query, version, headers, None).pathComponents == pieces
  {
    var url := [first] + Join(pieces, "/");
    assert url[1..] == Join(pieces, "/");
    forall k | 0 <= k < |pieces| - 1 ensures NoEarlyMatch(pieces[k], "/") {
      NoEarlyMatchChar(pieces[k], '/');
    }
    ContainsChar(pieces[|pieces| - 1], '/');
    SplitJoinInverse(pieces, "/");
  }

  /** `/` has the single empty component. */
  lemma RootPath(httpMethod: string, query: Option<QueryStrings.Query>, version: (u16, u16), headers: MultiMap)
    ensures New(httpMethod, "http", "/", query, version, headers, None).pathComponents == [""]
  {
    ComponentsOfJoin('/', [""], httpMethod, query, version, headers);
  }

  /** A trailing `/` leaves an empty last component: `/a/` gives `a` and `""`. */
  lemma TrailingSlash(httpMethod: string, query: Option<QueryStrings.Query>, version: (u16, u16), headers: MultiMap)
    ensures New(httpMethod, "http", "/a/", query, version, headers, None).pathComponents == ["a", ""]
  {
    assert Join(["a", ""], "/") == "a/" by {
      JoinCons("a", [""], "/");
    }
    ComponentsOfJoin('/', ["a", ""], httpMethod, query, version, headers);
  }

  /** Every accessor returns what the constructor was given. */
  lemma AccessorsReturnArguments(httpMethod: string, scheme: string, url: string, query: Option<QueryStrings.Query>,
                                 version: (u16, u16), headers: MultiMap, contentLength: Option<u64>)
    requires Sliceable(url)
    ensures var r := New(httpMethod, scheme, url, query, version, headers, contentLength);
      r.HttpVersion() == version && r.Method() == httpMethod && r.Scheme() == scheme
      && r.Path() == url && r.Query() == query && r.Headers() == headers
      && r.ContentLength() == contentLength
      && r.PathComponents() == Split(url[1..], "/")
  {
  }
}
