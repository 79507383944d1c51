/** The request handlers (src/handler.rs): the resource is the root joined with the path
    components, the file system's answer picks a 404 page, a 500 page, the file itself or
    (in directory mode) an HTML listing, and the choice is written through a `Response`.
    The file system, the MIME table and `ls` are given from outside. */
module Handlers {
  import opened Wrappers
  import opened Text
  import opened MultiMaps
  import opened PercentCoding
  import opened Responses
  import Requests
  import QueryStrings
  import HeaderFields

  /** What `fs::metadata` reports about a path that exists. */
  datatype Metadata = Metadata(isFile: bool, isDir: bool, len: nat)

  /** The world outside the program while one request is handled: `metadata` for
      `fs::metadata`, `open` for `File::open` followed by copying the whole file (its bytes
      or the error opening it), `ls` for the standard output of `ls <dir>`. */
  datatype FileSystem = FileSystem(
    metadata: string -> Result<Metadata, IoError>,
    open: string -> Result<seq<byte>, IoError>,
    ls: string -> string)

  /** A `ServerHandler`: the document root and the MIME table's answer for a path. */
  datatype ServerHandler = ServerHandler(root: string, mimeFor: string -> string)

  /** `ServerHandler<FileMode>` or `ServerHandler<DirectoryMode>`. */
  datatype Mode = FileMode | DirectoryMode

  // ---------------------------------------------------------------------------
  // The resource path

  /** `PathBuf::push(p)` on Unix: an absolute `p` replaces the path; otherwise a `/` is put
      between a non-empty path not already ending in `/` and `p`. */
  function JoinPath(base: string, p: string): string
  {
    if p != [] && p[0] == '/' then p
    else if base == [] || base[|base| - 1] == '/' then base + p
    else base + "/" + p
  }

  /** The root joined with each component in order. */
  function Resource(root: string, components: seq<string>): string
    decreases |components|
  {
    if components == [] then root
    else JoinPath(Resource(root, components[..|components| - 1]), components[|components| - 1])
  }

  /** An absolute path replaces the base; anything else is appended after the base, and an
      empty one leaves a trailing `/` on a non-empty base. */
  lemma JoinPathLaws(base: string, p: string)
    ensures p != [] && p[0] == '/' ==> JoinPath(base, p) == p
    ensures var r := JoinPath(base, p);
      !(p != [] && p[0] == '/') ==> |r| >= |base| + |p| && r[..|base|] == base && r[|r| - |p|..] == p
    ensures p == [] && base != [] ==> var r := JoinPath(base, p); r[|r| - 1] == '/'
  {
  }

  /** Joining components none of which is absolute keeps the root as a prefix. */
  lemma {:induction false} ResourceKeepsRoot(root: string, components: seq<string>)
    requires forall k | 0 <= k < |components| :: components[k] == [] || components[k][0] != '/'
    ensures var r := Resource(root, components); |r| >= |root| && r[..|root|] == root
    decreases |components|
  {
    if components != [] {
      var n := |components| - 1;
      var base := Resource(root, components[..n]);
      ResourceKeepsRoot(root, components[..n]);
      JoinPathLaws(base, components[n]);
      var r := JoinPath(base, components[n]);
      assert r[..|root|] == r[..|base|][..|root|];
    }
  }

  /** `get_resourc_and_metadata`: the resource path and what the file system says about it. */
  method GetResourceAndMetadata(handler: ServerHandler, fs: FileSystem, req: Requests.Request)
    returns (resource: string, metadata: Result<Metadata, IoError>)
    ensures resource == Resource(handler.root, req.pathComponents)
    ensures metadata == fs.metadata(resource)
  {
    var components := req.PathComponents();
    resource := handler.root;
    var i := 0;
    while i < |components|
      invariant 0 <= i <= |components|
      invariant resource == Resource(handler.root, components[..i])
    {
      assert components[..i + 1][..i] == components[..i];
      resource := JoinPath(resource, components[i]);
      i := i + 1;
    }
    assert components[..i] == components;
    metadata := fs.metadata(resource);
  }

  /** Plain components (non-empty, without `/`) under a root that does not end in `/`
      give the root, `/`, and the components separated by `/`. */
  lemma {:induction false} ResourceOfPlainComponents(root: string, components: seq<string>)
    requires root != [] && root[|root| - 1] != '/'
    requires |components| >= 1
    requires forall i | 0 <= i < |components| :: components[i] != [] && '/' !in components[i]
    ensures Resource(root, components) == root + "/" + Join(components, "/")
    decreases |components|
  {
    var init := components[..|components| - 1];
    var last := components[|components| - 1];
    assert last[0] in last;
    if |components| == 1 {
      assert init == [];
      assert Resource(root, components) == JoinPath(root, last);
    } else {
      ResourceOfPlainComponents(root, init);
      var prefix := root + "/" + Join(init, "/");
      var piece := init[|init| - 1];
      JoinLastChar(init);
      assert prefix[|prefix| - 1] == piece[|piece| - 1];
      assert piece[|piece| - 1] in piece;
      assert Resource(root, components) == JoinPath(prefix, last);
      JoinSnoc(init, last, "/");
      assert init + [last] == components;
    }
  }

  /** A join ends with the last character of its last piece, when that piece is not empty. */
  lemma {:induction false} JoinLastChar(parts: seq<string>)
    requires |parts| >= 1 && parts[|parts| - 1] != []
    ensures var j := Join(parts, "/"); |j| >= 1 && j[|j| - 1] == parts[|parts| - 1][|parts[|parts| - 1]| - 1]
    decreases |parts|
  {
    if |parts| > 1 {
      JoinLastChar(parts[1..]);
    }
  }

  /** The URL `/` names the root itself, with a trailing `/`. */
  lemma RootResource(root: string)
    requires root != [] && root[|root| - 1] != '/'
    ensures Resource(root, [""]) == root + "/"
  {
    assert [""][..0] == [];
  }

  /** Nothing keeps a request inside the root: a `..` component is joined like any other,
      so the components `..` and `<name>` after any path `p` name `p/../<name>`, a sibling
      of `p`; with no components before them, a sibling of the root. */
  lemma ParentComponentLeavesRoot(root: string, cs: seq<string>, name: string)
    requires var p := Resource(root, cs); p != [] && p[|p| - 1] != '/'
    requires name == [] || name[0] != '/'
    ensures Resource(root, cs + [".."] + [name]) == Resource(root, cs) + "/" + ".." + "/" + name
  {
    var dots := "..";
    assert dots[0] == '.' && dots[|dots| - 1] == '.';
    var p := Resource(root, cs);
    ResourceSnoc(root, cs, dots);
    JoinRelative(p, dots);
    var up := p + "/" + dots;
    LastOfAppend(p + "/", dots);
    ResourceSnoc(root, cs + [dots], name);
    JoinRelative(up, name);
  }

  /** One more component is joined onto the path so far. */
  lemma ResourceSnoc(root: string, cs: seq<string>, c: string)
    ensures Resource(root, cs + [c]) == JoinPath(Resource(root, cs), c)
  {
    assert (cs + [c])[..|cs|] == cs;
  }

  lemma JoinRelative(base: string, p: string)
    requires base != [] && base[|base| - 1] != '/'
    requires p == [] || p[0] != '/'
    ensures JoinPath(base, p) == base + "/" + p
  {
  }

  lemma LastOfAppend(x: string, y: string)
    requires y != []
    ensures (x + y)[|x + y| - 1] == y[|y| - 1]
  {
  }

  // ---------------------------------------------------------------------------
  // What a handler writes

  /** What a handler does with the response: set the status (or keep it), append header
      fields in order, and start with the given body and callback result; or return an
      error before touching the response. */
  datatype Plan =
    | Respond(status: Option<(i32, string)>, fields: seq<(string, string)>, body: seq<byte>, bodyResult: Result<(), IoError>)
    | Abort(error: IoError)

  /** Appending header fields one after another with `with_header`. */
  function AddHeaders(s: ResponseState, fields: seq<(string, string)>): ResponseState
    decreases |fields|
  {
    if fields == [] then s else AddHeaders(AddHeader(s, fields[0].0, fields[0].1).0, fields[1..])
  }

  /** The response just before `start`. */
  function Prepared(s: ResponseState, plan: Plan): ResponseState
    requires plan.Respond?
  {
    var t := if plan.status.Some? then SetStatus(s, plan.status.value.0, plan.status.value.1).0 else s;
    AddHeaders(t, plan.fields)
  }

  /** `order` is a visiting order of the header map `start` writes. */
  predicate OrderFits(s: ResponseState, plan: Plan, date: string, order: seq<string>)
  {
    plan.Respond? && !Prepared(s, plan).headersWritten ==>
      IsEnumeration(order, StartHeaders(Prepared(s, plan).headers, date).Keys)
  }

  /** The response and the handler's result after carrying out `plan`. */
  function Handled(s: ResponseState, plan: Plan, date: string, order: seq<string>,
                   shutdownResult: Result<(), IoError>): (ResponseState, Result<(), Failure>)
    requires OrderFits(s, plan, date, order)
  {
    match plan
    case Abort(e) => (s, Err(Io(e)))
    case Respond(_, _, body, bodyResult) =>
      StartSpec(Prepared(s, plan), date, order, body, bodyResult, shutdownResult)
  }

  /** `send_not_found`: its literal body `404 - Not Found` is the body `send_error(404,
      "Not Found")` would format (`NotFoundBody`), so the two plans are one. */
  function NotFoundPlan(): Plan
  {
    ErrorPlan(404, "Not Found")
  }

  /** `send_error(status, description)`: the body is the code, ` - ` and the description. */
  function ErrorPlan(status: i32, description: string): Plan
  {
    Respond(Some((status, description)), [], Utf8(IntToDecimal(status) + " - " + description), Ok(()))
  }

  /** `send_file`: an open failure is returned before anything is set; otherwise the MIME
      type and the decimal length are set and the body is the file's bytes. */
  function FilePlan(handler: ServerHandler, fs: FileSystem, resource: string, md: Metadata): Plan
  {
    match fs.open(resource)
    case Err(e) => Abort(e)
    case Ok(bytes) =>
      Respond(None, [("Content-Type", handler.mimeFor(resource)), ("Content-Length", NatToDecimal(md.len))], bytes, Ok(()))
  }

  const ListingType := "text/html; charset=utf-8"
  // The literals written before and after the items of a listing.
  const ListingOpen: seq<byte> := Utf8("<html><body<ul")
  const ListingClose: seq<byte> := Utf8("</ul></body></html>")

  /** The name shown for an entry: directories get a trailing `/`. */
  function Shown(name: string, md: Metadata): string
  {
    if md.isDir then name + "/" else name
  }

  /** One listing item: a link to the request path followed by the shown name. */
  function Item(reqPath: string, name: string): seq<byte>
  {
    ItemHead + PercentEncode(Utf8(reqPath + name)) + ItemMid + Utf8(name) + ItemTail
  }
  // The literal pieces of an item, around the link target and the shown name.
  const ItemHead: seq<byte> := Utf8("<li><a href=\"")
  const ItemMid: seq<byte> := Utf8("\">")
  const ItemTail: seq<byte> := Utf8("</a><li>")

  /** The items for `names[i..]`, skipping empty names, up to the first entry whose
      metadata fails; with that failure, or `Ok` when there is none. */
  function ItemsFrom(fs: FileSystem, resource: string, reqPath: string, names: seq<string>, i: nat)
    : (seq<byte>, Result<(), IoError>)
    requires i <= |names|
    decreases |names| - i
  {
    if i == |names| then ([], Ok(()))
    else if names[i] == [] then ItemsFrom(fs, resource, reqPath, names, i + 1)
    else match fs.metadata(JoinPath(resource, names[i]))
      case Err(e) => ([], Err(e))
      case Ok(md) =>
        var rest := ItemsFrom(fs, resource, reqPath, names, i + 1);
        (Item(reqPath, Shown(names[i], md)) + rest.0, rest.1)
  }

  /** What the listing callback writes and returns for the directory `resource`. */
  function ListingBody(fs: FileSystem, resource: string, reqPath: string): (seq<byte>, Result<(), IoError>)
  {
    var items := ItemsFrom(fs, resource, reqPath, Split(fs.ls(resource), "\n"), 0);
    (ListingOpen + items.0 + (if items.1.Ok? then ListingClose else []), items.1)
  }

  /** The directory branch: the HTML content type, then the listing as the body. */
  function ListingPlan(fs: FileSystem, resource: string, reqPath: string): Plan
  {
    Respond(None, [("Content-Type", ListingType)], ListingBody(fs, resource, reqPath).0, ListingBody(fs, resource, reqPath).1)
  }

  /** A failed metadata lookup: the 404 page for a missing resource, else a 500. */
  function LookupErrorPlan(e: IoError): Plan
  {
    var notFound := e.kind == NotFound;
    ErrorPlan(if notFound then 404 else 500, if notFound then "Not Found" else "Internal Server Error")
  }

  /** The decision of `handle_request` in either mode. */
  function PlanFor(mode: Mode, handler: ServerHandler, fs: FileSystem, req: Requests.Request): Plan
  {
    var resource := Resource(handler.root, req.pathComponents);
    match fs.metadata(resource)
    case Err(e) => LookupErrorPlan(e)
    case Ok(md) =>
      if mode == FileMode then
        if !md.isFile then NotFoundPlan() else FilePlan(handler, fs, resource, md)
      else
        if md.isFile then FilePlan(handler, fs, resource, md) else ListingPlan(fs, resource, req.path)
  }

  /** A status is set exactly for an error page, which is 404 or 500 and adds no field;
      the handler returns an error without answering only for a file it cannot open. */
  lemma PlanShape(mode: Mode, handler: ServerHandler, fs: FileSystem, req: Requests.Request)
    ensures var plan := PlanFor(mode, handler, fs, req);
      var m := fs.metadata(Resource(handler.root, req.pathComponents));
      (plan.Respond? && plan.status.Some?) <==> m.Err? || (mode == FileMode && !m.value.isFile)
    ensures var plan := PlanFor(mode, handler, fs, req);
      plan.Respond? && plan.status.Some? ==>
        plan.fields == [] && (plan.status.value == (404, "Not Found") || plan.status.value == (500, "Internal Server Error"))
    ensures var resource := Resource(handler.root, req.pathComponents);
      var plan := PlanFor(mode, handler, fs, req);
      var m := fs.metadata(resource);
      plan.Abort? ==> m.Ok? && m.value.isFile && fs.open(resource) == Err(plan.error)
  {
  }

  /** Appending one field, and two fields, with `AddHeaders`. */
  lemma AddOneHeader(s: ResponseState, a: (string, string))
    ensures AddHeaders(s, [a]) == AddHeader(s, a.0, a.1).0
  {
    assert [a][1..] == [];
  }

  lemma AddTwoHeaders(s: ResponseState, a: (string, string), b: (string, string))
    ensures AddHeaders(s, [a, b]) == AddHeader(AddHeader(s, a.0, a.1).0, b.0, b.1).0
  {
    assert [a, b][1..] == [b];
    AddOneHeader(AddHeader(s, a.0, a.1).0, b);
  }

  // ---------------------------------------------------------------------------
  // The handlers

  /** `send_not_found`. */
  method SendNotFound(res: Responses.Response, date: string, shutdownResult: Result<(), IoError>)
    returns (r: Result<(), Failure>, order: seq<string>)
    modifies res, res.headers
    ensures OrderFits(old(res.State()), NotFoundPlan(), date, order)
    ensures (res.State(), r) == Handled(old(res.State()), NotFoundPlan(), date, order, shutdownResult)
  {
    var applied := res.WithStatus(404, "Not Found");
    NotFoundBody();
    r, order := res.Start(date, Utf8("404 - Not Found"), Ok(()), shutdownResult);
  }

  /** `send_error(status, description)`. */
  method SendError(res: Responses.Response, status: i32, description: string, date: string,
                   shutdownResult: Result<(), IoError>)
    returns (r: Result<(), Failure>, order: seq<string>)
    modifies res, res.headers
    ensures OrderFits(old(res.State()), ErrorPlan(status, description), date, order)
    ensures (res.State(), r) == Handled(old(res.State()), ErrorPlan(status, description), date, order, shutdownResult)
  {
    var applied := res.WithStatus(status, description);
    r, order := res.Start(date, Utf8(IntToDecimal(status) + " - " + description), Ok(()), shutdownResult);
  }

  /** The error branch of `handle_request`, shared by both modes: `send_not_found` for a
      missing resource, else `send_error(500, "Internal Server Error")`. */
  method SendLookupError(e: IoError, res: Responses.Response, date: string, shutdownResult: Result<(), IoError>)
    returns (r: Result<(), Failure>, order: seq<string>)
    modifies res, res.headers
    ensures OrderFits(old(res.State()), LookupErrorPlan(e), date, order)
    ensures (res.State(), r) == Handled(old(res.State()), LookupErrorPlan(e), date, order, shutdownResult)
  {
    if e.kind == NotFound {
      r, order := SendNotFound(res, date, shutdownResult);
    } else {
      r, order := SendError(res, 500, "Internal Server Error", date, shutdownResult);
    }
  }

  /** `send_file(resource, metadata)`. */
  method SendFile(handler: ServerHandler, fs: FileSystem, resource: string, md: Metadata,
                  res: Responses.Response, date: string, shutdownResult: Result<(), IoError>)
    returns (r: Result<(), Failure>, order: seq<string>)
    modifies res, res.headers
    ensures OrderFits(old(res.State()), FilePlan(handler, fs, resource, md), date, order)
    ensures (res.State(), r) == Handled(old(res.State()), FilePlan(handler, fs, resource, md), date, order, shutdownResult)
  {
    var file := fs.open(resource);
    if file.Err? {
      return Err(Io(file.error)), [];
    }
    ghost var s0 := res.State();
    var applied := res.WithHeader("Content-Type", handler.mimeFor(resource));
    applied := res.WithHeader("Content-Length", NatToDecimal(md.len));
    AddTwoHeaders(s0, ("Content-Type", handler.mimeFor(resource)), ("Content-Length", NatToDecimal(md.len)));
    assert res.State() == Prepared(s0, FilePlan(handler, fs, resource, md));
    r, order := res.Start(date, file.value, Ok(()), shutdownResult);
  }

  lemma AppendAssoc(a: seq<byte>, b: seq<byte>, c: seq<byte>)
    ensures a + b + c == a + (b + c)
  {
  }

  /** The bytes written for one entry. */
  method RenderItem(reqPath: string, name: string) returns (item: seq<byte>)
    ensures item == Item(reqPath, name)
  {
    var path := reqPath + name;
    item := ItemHead + PercentEncode(Utf8(path)) + ItemMid + Utf8(name) + ItemTail;
  }

  /** One entry of the listing loop at a non-empty name: its item, or the failure that
      ends the listing. */
  method RenderEntry(fs: FileSystem, resource: string, reqPath: string, names: seq<string>, i: nat)
    returns (item: seq<byte>, failure: Option<IoError>)
    requires i < |names| && names[i] != []
    ensures failure.Some? ==> ItemsFrom(fs, resource, reqPath, names, i) == ([], Err(failure.value))
    ensures failure.None? ==>
      ItemsFrom(fs, resource, reqPath, names, i)
        == (item + ItemsFrom(fs, resource, reqPath, names, i + 1).0, ItemsFrom(fs, resource, reqPath, names, i + 1).1)
  {
    var md := fs.metadata(JoinPath(resource, names[i]));
    if md.Err? {
      return [], Some(md.error);
    }
    var name := names[i];
    if md.value.isDir {
      name := name + "/";
    }
    item := RenderItem(reqPath, name);
    failure := None;
  }

  /** The loop of the listing callback: one item per non-empty name, stopping at the first
      entry whose metadata fails. */
  method RenderItems(fs: FileSystem, resource: string, reqPath: string, names: seq<string>)
    returns (items: seq<byte>, result: Result<(), IoError>)
    ensures (items, result) == ItemsFrom(fs, resource, reqPath, names, 0)
  {
    items := [];
    ghost var all := ItemsFrom(fs, resource, reqPath, names, 0);
    var i := 0;
    while i < |names|
      invariant 0 <= i <= |names|
      invariant items + ItemsFrom(fs, resource, reqPath, names, i).0 == all.0
      invariant ItemsFrom(fs, resource, reqPath, names, i).1 == all.1
    {
      if names[i] == [] {
        i := i + 1;
        continue;
      }
      var item, failure := RenderEntry(fs, resource, reqPath, names, i);
      if failure.Some? {
        assert items + [] == items;
        return items, Err(failure.value);
      }
      AppendAssoc(items, item, ItemsFrom(fs, resource, reqPath, names, i + 1).0);
      items := items + item;
      i := i + 1;
    }
    assert items + [] == items;
    result := Ok(());
  }

  /** The listing callback: the opening literal, one item per non-empty line of `ls`, and
      the closing literal; a metadata failure ends it early with that error. */
  method RenderListing(fs: FileSystem, resource: string, reqPath: string)
    returns (body: seq<byte>, result: Result<(), IoError>)
    ensures (body, result) == ListingBody(fs, resource, reqPath)
  {
    var items;
    items, result := RenderItems(fs, resource, reqPath, Split(fs.ls(resource), "\n"));
    body := ListingOpen + items + (if result.Ok? then ListingClose else []);
  }

  /** The directory branch of `handle_request` in directory mode: the HTML content type,
      then the listing callback as the body. */
  method SendListing(fs: FileSystem, resource: string, reqPath: string,
                     res: Responses.Response, date: string, shutdownResult: Result<(), IoError>)
    returns (r: Result<(), Failure>, order: seq<string>)
    modifies res, res.headers
    ensures OrderFits(old(res.State()), ListingPlan(fs, resource, reqPath), date, order)
    ensures (res.State(), r) == Handled(old(res.State()), ListingPlan(fs, resource, reqPath), date, order, shutdownResult)
  {
    ghost var s0 := res.State();
    var applied := res.WithHeader("Content-Type", ListingType);
    var body, bodyResult := RenderListing(fs, resource, reqPath);
    AddOneHeader(s0, ("Content-Type", ListingType));
    assert res.State() == Prepared(s0, ListingPlan(fs, resource, reqPath));
    r, order := res.Start(date, body, bodyResult, shutdownResult);
  }

  /** `handle_request` for `ServerHandler<FileMode>`. */
  method HandleFileMode(handler: ServerHandler, fs: FileSystem, req: Requests.Request,
                        res: Responses.Response, date: string, shutdownResult: Result<(), IoError>)
    returns (r: Result<(), Failure>, order: seq<string>)
    modifies res, res.headers
    ensures OrderFits(old(res.State()), PlanFor(FileMode, handler, fs, req), date, order)
    ensures (res.State(), r) == Handled(old(res.State()), PlanFor(FileMode, handler, fs, req), date, order, shutdownResult)
  {
    var resource, metadata := GetResourceAndMetadata(handler, fs, req);
    if metadata.Err? {
      r, order := SendLookupError(metadata.error, res, date, shutdownResult);
      return;
    }
    if !metadata.value.isFile {
      r, order := SendNotFound(res, date, shutdownResult);
      return;
    }
    r, order := SendFile(handler, fs, resource, metadata.value, res, date, shutdownResult);
  }

  /** `handle_request` for `ServerHandler<DirectoryMode>`. */
  method HandleDirectoryMode(handler: ServerHandler, fs: FileSystem, req: Requests.Request,
                             res: Responses.Response, date: string, shutdownResult: Result<(), IoError>)
    returns (r: Result<(), Failure>, order: seq<string>)
    modifies res, res.headers
    ensures OrderFits(old(res.State()), PlanFor(DirectoryMode, handler, fs, req), date, order)
    ensures (res.State(), r) == Handled(old(res.State()), PlanFor(DirectoryMode, handler, fs, req), date, order, shutdownResult)
  {
    var resource, metadata := GetResourceAndMetadata(handler, fs, req);
    DirectoryModePlan(handler, fs, req);
    if metadata.Err? {
      r, order := SendLookupError(metadata.error, res, date, shutdownResult);
      return;
    }
    if metadata.value.isFile {
      r, order := SendFile(handler, fs, resource, metadata.value, res, date, shutdownResult);
      return;
    }
    r, order := SendListing(fs, resource, req.Path(), res, date, shutdownResult);
  }

  lemma DirectoryModePlan(handler: ServerHandler, fs: FileSystem, req: Requests.Request)
    ensures var m := fs.metadata(Resource(handler.root, req.pathComponents));
      m.Err? ==> PlanFor(DirectoryMode, handler, fs, req) == LookupErrorPlan(m.error)
    ensures var resource := Resource(handler.root, req.pathComponents);
      var m := fs.metadata(resource);
      m.Ok? && m.value.isFile ==> PlanFor(DirectoryMode, handler, fs, req) == FilePlan(handler, fs, resource, m.value)
    ensures var resource := Resource(handler.root, req.pathComponents);
      var m := fs.metadata(resource);
      m.Ok? && !m.value.isFile ==> PlanFor(DirectoryMode, handler, fs, req) == ListingPlan(fs, resource, req.path)
  {
  }

  // ---------------------------------------------------------------------------
  // Properties of the handlers

  /** The two modes answer alike except for a resource that exists and is not a file,
      which file mode refuses with the 404 page and directory mode lists. */
  lemma ModesDifferOnlyOnNonFiles(handler: ServerHandler, fs: FileSystem, req: Requests.Request)
    ensures var m := fs.metadata(Resource(handler.root, req.pathComponents));
      PlanFor(FileMode, handler, fs, req) != PlanFor(DirectoryMode, handler, fs, req) ==>
        m.Ok? && !m.value.isFile
        && PlanFor(FileMode, handler, fs, req) == NotFoundPlan()
        && PlanFor(DirectoryMode, handler, fs, req) == ListingPlan(fs, Resource(handler.root, req.pathComponents), req.path)
  {
  }

  /** In file mode the 404 page is sent exactly when the resource is missing or is not a
      file; any other metadata failure is a 500. */
  lemma FileModeNotFoundExactly(handler: ServerHandler, fs: FileSystem, req: Requests.Request)
    ensures var m := fs.metadata(Resource(handler.root, req.pathComponents));
      (PlanFor(FileMode, handler, fs, req) == NotFoundPlan()
       <==> (m.Err? && m.error.kind == NotFound) || (m.Ok? && !m.value.isFile))
      && (m.Err? && m.error.kind != NotFound ==>
            PlanFor(FileMode, handler, fs, req) == ErrorPlan(500, "Internal Server Error"))
  {
  }

  /** A URL made of plain pieces names the root, `/`, and those pieces joined by `/`:
      the request's components and the handler's join combined. */
  lemma UrlNamesResource(root: string, pieces: seq<string>, httpMethod: string,
                         query: Option<QueryStrings.Query>, version: (Requests.u16, Requests.u16), headers: MultiMap)
    requires root != [] && root[|root| - 1] != '/'
    requires |pieces| >= 1
    requires forall i | 0 <= i < |pieces| :: pieces[i] != [] && '/' !in pieces[i]
    ensures Resource(root, Requests.New(httpMethod, "http", "/" + Join(pieces, "/"), query, version, headers, None).pathComponents)
            == root + "/" + Join(pieces, "/")
  {
    Requests.ComponentsOfJoin('/', pieces, httpMethod, query, version, headers);
    assert "/" + Join(pieces, "/") == ['/'] + Join(pieces, "/");
    ResourceOfPlainComponents(root, pieces);
  }

  /** A file response: the status is kept, `Content-Type` gets the MIME type and
      `Content-Length` the decimal metadata length, and the file's bytes come last. */
  lemma FileResponse(handler: ServerHandler, fs: FileSystem, resource: string, md: Metadata,
                     s: ResponseState, date: string, order: seq<string>, bytes: seq<byte>)
    requires !s.headersWritten && fs.open(resource) == Ok(bytes)
    requires OrderFits(s, FilePlan(handler, fs, resource, md), date, order)
    ensures var (t, r) := Handled(s, FilePlan(handler, fs, resource, md), date, order, Ok(()));
      r == Ok(()) && t.status == s.status && t.headersWritten && t.shutDown
      && Values(t.headers, "Content-Type") == Values(s.headers, "Content-Type") + [handler.mimeFor(resource)]
      && Values(t.headers, "Content-Length") == Values(s.headers, "Content-Length") + [NatToDecimal(md.len)]
      && DecimalValue(NatToDecimal(md.len)) == md.len
      && |t.output| >= |bytes| && t.output[|t.output| - |bytes|..] == bytes
  {
    var plan := FilePlan(handler, fs, resource, md);
    var a := ("Content-Type", handler.mimeFor(resource));
    var b := ("Content-Length", NatToDecimal(md.len));
    AddTwoHeaders(s, a, b);
    var p := Prepared(s, plan);
    assert p.headers == Appended(Appended(s.headers, a.0, [a.1]), b.0, [b.1]);
    assert "Content-Type" != "Content-Length";
    StartAddsDateAndConnection(p.headers, date);
    assert "Content-Type" != "Date" && "Content-Type" != "Connection";
    assert "Content-Length" != "Date" && "Content-Length" != "Connection";
  }

  /** A file that cannot be opened leaves the response as it was and returns the error. */
  lemma FileOpenFailureLeavesResponse(handler: ServerHandler, fs: FileSystem, resource: string, md: Metadata,
                                      s: ResponseState, date: string, order: seq<string>,
                                      shutdownResult: Result<(), IoError>)
    requires fs.open(resource).Err?
    ensures Handled(s, FilePlan(handler, fs, resource, md), date, order, shutdownResult)
            == (s, Err(Io(fs.open(resource).error)))
  {
  }

  /** The 404 page on a fresh response: status line `HTTP/1.0 404 Not Found` and the body
      `404 - Not Found` after the head. */
  lemma NotFoundPage(date: string, order: seq<string>)
    requires OrderFits(Fresh(), NotFoundPlan(), date, order)
    ensures var (t, r) := Handled(Fresh(), NotFoundPlan(), date, order, Ok(()));
      r == Ok(())
      && StatusLine(t) == "HTTP/1.0 404 Not Found\r\n"
      && t.output == Head(t, t.headers, order) + Utf8("404 - Not Found")
  {
    var p := SetStatus(Fresh(), 404, "Not Found").0;
    assert Prepared(Fresh(), NotFoundPlan()) == p;
    NotFoundBody();
    StartOnEmptyOutput(p, date, order, Utf8("404 - Not Found"));
    NotFoundStatusLine();
  }

  /** The body `send_not_found` writes is what `send_error(404, "Not Found")` formats. */
  lemma NotFoundBody()
    ensures NotFoundPlan().body == Utf8("404 - Not Found")
  {
    Decimal404();
    assert "404" + " - " + "Not Found" == "404 - Not Found";
  }

  /** What a start writes after an empty output: the head, then the body. */
  lemma StartOnEmptyOutput(p: ResponseState, date: string, order: seq<string>, body: seq<byte>)
    requires !p.headersWritten && p.output == []
    requires IsEnumeration(order, StartHeaders(p.headers, date).Keys)
    ensures var t := StartSpec(p, date, order, body, Ok(()), Ok(())).0;
      t.output == Head(t, t.headers, order) + body
  {
    StartSpecStarts(p, date, order, body, Ok(()), Ok(()));
    var t := StartSpec(p, date, order, body, Ok(()), Ok(())).0;
    var h := StartHeaders(p.headers, date);
    assert StatusLine(t) == StatusLine(p);
    assert [] + Head(p, h, order) == Head(p, h, order);
  }

  /** An error page carries the code and the description in its status line, and its body
      is the code's decimal digits, ` - `, and the description. */
  lemma ErrorPage(s: ResponseState, status: i32, description: string, date: string, order: seq<string>)
    requires !s.headersWritten && OrderFits(s, ErrorPlan(status, description), date, order)
    ensures var (t, r) := Handled(s, ErrorPlan(status, description), date, order, Ok(()));
      r == Ok(()) && t.status == status && t.statusText == description
      && var body := Utf8(IntToDecimal(status)) + Utf8(" - ") + Utf8(description);
         |t.output| >= |body| && t.output[|t.output| - |body|..] == body
  {
    Utf8Concat(IntToDecimal(status), " - ");
    Utf8Concat(IntToDecimal(status) + " - ", description);
  }

  /** The link of an item is quoted safely: its target has no `"` byte, and it decodes
      back to the request path and shown name when those have no `%`. */
  lemma ItemLink(reqPath: string, name: string)
    ensures var href := PercentEncode(Utf8(reqPath + name));
      Item(reqPath, name) == ItemHead + href + ItemMid + Utf8(name) + ItemTail
      && 0x22 !in href
      && (Percent !in Utf8(reqPath + name) ==> PercentDecode(href) == Utf8(reqPath + name))
  {
    var bytes := Utf8(reqPath + name);
    var href := PercentEncode(bytes);
    assert InDefaultEncodeSet(0x22);
    assert forall k | 0 <= k < |href| :: href[k] != 0x22;
    if Percent !in bytes {
      DecodeEncode(bytes);
    }
  }

  /** When every non-empty name from `i` on has metadata, the items end without error. */
  lemma {:induction false} ItemsComplete(fs: FileSystem, resource: string, reqPath: string, names: seq<string>, i: nat)
    requires i <= |names|
    requires forall k | i <= k < |names| :: names[k] != [] ==> fs.metadata(JoinPath(resource, names[k])).Ok?
    ensures ItemsFrom(fs, resource, reqPath, names, i).1 == Ok(())
    decreases |names| - i
  {
    if i < |names| {
      ItemsComplete(fs, resource, reqPath, names, i + 1);
    }
  }

  /** The items stop at the first non-empty name whose metadata fails, with that error. */
  lemma {:induction false} ItemsStopAtFailure(fs: FileSystem, resource: string, reqPath: string, names: seq<string>,
                                              i: nat, j: nat)
    requires i <= j < |names| && names[j] != [] && fs.metadata(JoinPath(resource, names[j])).Err?
    requires forall k | i <= k < j :: names[k] != [] ==> fs.metadata(JoinPath(resource, names[k])).Ok?
    ensures ItemsFrom(fs, resource, reqPath, names, i).1 == Err(fs.metadata(JoinPath(resource, names[j])).error)
    decreases j - i
  {
    if i < j {
      ItemsStopAtFailure(fs, resource, reqPath, names, i + 1, j);
    }
  }

  /** Every non-empty name's metadata can be read. */
  predicate Readable(fs: FileSystem, resource: string, names: seq<string>)
  {
    forall k | 0 <= k < |names| :: names[k] != [] ==> fs.metadata(JoinPath(resource, names[k])).Ok?
  }

  /** The items succeed exactly when every non-empty name's metadata can be read. */
  lemma ItemsSucceedExactly(fs: FileSystem, resource: string, reqPath: string, names: seq<string>)
    ensures ItemsFrom(fs, resource, reqPath, names, 0).1 == Ok(()) <==> Readable(fs, resource, names)
  {
    if Readable(fs, resource, names) {
      ItemsComplete(fs, resource, reqPath, names, 0);
    } else {
      var j := FirstFailure(fs, resource, names, 0);
      ItemsStopAtFailure(fs, resource, reqPath, names, 0, j);
    }
  }

  /** A listing succeeds exactly when every listed entry's metadata can be read. */
  lemma ListingSucceedsExactly(fs: FileSystem, resource: string, reqPath: string)
    ensures ListingBody(fs, resource, reqPath).1 == Ok(()) <==> Readable(fs, resource, Split(fs.ls(resource), "\n"))
  {
    ItemsSucceedExactly(fs, resource, reqPath, Split(fs.ls(resource), "\n"));
  }

  /** A listing starts with the opening literal and, when it succeeds, ends with the
      closing one. */
  lemma ListingFrame(fs: FileSystem, resource: string, reqPath: string)
    ensures var body := ListingBody(fs, resource, reqPath).0;
      |body| >= |ListingOpen| && body[..|ListingOpen|] == ListingOpen
      && (ListingBody(fs, resource, reqPath).1.Ok? ==>
            |body| >= |ListingClose| && body[|body| - |ListingClose|..] == ListingClose)
  {
    var items := ItemsFrom(fs, resource, reqPath, Split(fs.ls(resource), "\n"), 0);
    var tail := if items.1.Ok? then ListingClose else [];
    AppendAssoc(ListingOpen, items.0, tail);
  }

  /** The first failing non-empty name at or after `i`, when there is one. */
  lemma {:induction false} FirstFailure(fs: FileSystem, resource: string, names: seq<string>, i: nat) returns (j: nat)
    requires i <= |names|
    requires exists k | i <= k < |names| :: names[k] != [] && fs.metadata(JoinPath(resource, names[k])).Err?
    ensures i <= j < |names| && names[j] != [] && fs.metadata(JoinPath(resource, names[j])).Err?
    ensures forall k | i <= k < j :: names[k] != [] ==> fs.metadata(JoinPath(resource, names[k])).Ok?
    decreases |names| - i
  {
    if names[i] != [] && fs.metadata(JoinPath(resource, names[i])).Err? {
      j := i;
    } else {
      j := FirstFailure(fs, resource, names, i + 1);
    }
  }

  /** An empty directory lists as the opening and the closing literal alone. */
  lemma EmptyListing(fs: FileSystem, resource: string, reqPath: string)
    requires fs.ls(resource) == ""
    ensures ListingBody(fs, resource, reqPath) == (ListingOpen + ListingClose, Ok(()))
  {
    SplitWithout("", "\n");
    BlankNameOnly(fs, resource, reqPath);
    EmptyMiddle(ListingOpen, ListingClose);
  }

  /** A single empty name gives no items and no error. */
  lemma BlankNameOnly(fs: FileSystem, resource: string, reqPath: string)
    ensures ItemsFrom(fs, resource, reqPath, [""], 0) == ([], Ok(()))
  {
    assert ItemsFrom(fs, resource, reqPath, [""], 1) == ([], Ok(()));
  }

  lemma EmptyMiddle(a: seq<byte>, b: seq<byte>)
    ensures a + [] + b == a + b
  {
  }

  /** One line ended by a newline splits into the line and an empty piece. */
  lemma OneLine(name: string)
    requires '\n' !in name
    ensures Split(name + "\n", "\n") == [name, ""]
  {
    var parts := [name, ""];
    assert Join(parts, "\n") == name + "\n" by {
      JoinCons(name, [""], "\n");
    }
    NoEarlyMatchChar(name, '\n');
    SplitWithout("", "\n");
    SplitJoinInverse(parts, "\n");
  }

  /** A directory with one entry (as `ls` prints it, with a final newline) lists that
      entry's item between the literals. */
  lemma OneEntryListing(fs: FileSystem, resource: string, reqPath: string, name: string, md: Metadata)
    requires name != [] && '\n' !in name
    requires fs.ls(resource) == name + "\n"
    requires fs.metadata(JoinPath(resource, name)) == Ok(md)
    ensures ListingBody(fs, resource, reqPath)
            == (ListingOpen + Item(reqPath, Shown(name, md)) + ListingClose, Ok(()))
  {
    var parts := [name, ""];
    OneLine(name);
    assert ItemsFrom(fs, resource, reqPath, parts, 1) == ItemsFrom(fs, resource, reqPath, parts, 2) == ([], Ok(()));
    var item := Item(reqPath, Shown(name, md));
    assert ItemsFrom(fs, resource, reqPath, parts, 0) == (item + [], Ok(()));
    assert item + [] == item;
  }
}
