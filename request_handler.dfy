/**
 * The GET handler and `sendDirectoryListing`.  The handler is given as the
 * sequence of steps it takes: the filesystem calls it makes and the
 * responses it writes, in order.  A handler that writes twice shows up as
 * a trace with two `Send` steps; what Express then does with the second
 * write is not part of this model.
 */
module RequestHandler {
  import opened JsStrings
  import opened Http
  import opened ErrorTranslation
  import opened ContentResponder
  import opened DirectoryRenderer
  import opened Sandbox

  /** What `fs.stat` reports: whether the path is a directory, and its size. */
  datatype Stat = Stat(isDirectory: bool, size: nat)

  /** The outcome of a filesystem call: a value, or a failure with its error `code`. */
  datatype FsResult<T> = Ok(value: T) | Err(code: Option<string>)

  /**
   * The library and filesystem functions the handler calls, whose code is
   * not part of this model: `decodeURIComponent` (None when it throws),
   * `path.join`, `path.resolve`, `mime.lookup`, `fs.stat`, `fs.readdir`,
   * and the functions the listing page uses.
   */
  datatype Host = Host(
    decodeComponent: string -> Option<string>,
    join: (string, string) -> string,
    resolve: string -> string,
    mimeLookup: string -> Option<string>,
    stat: string -> FsResult<Stat>,
    readdir: string -> FsResult<seq<string>>,
    formatters: Formatters)

  /** The parts of the request the handler reads: `req.path` and `req.headers.range`. */
  datatype Request = Request(path: string, range: Option<string>)

  /** One step of the handler. */
  datatype Step =
    | StatPath(path: string)     // fs.stat(path)
    | ReadDir(path: string)      // fs.readdir(path)
    | Send(response: Response)   // a response written to `res`

  /** `res.status(403).send('Forbidden')` */
  const Forbidden := Response(403, [], Text("Forbidden"))

  /** The responses of a trace, in the order they are written. */
  function Responses(trace: seq<Step>): (rs: seq<Response>)
    ensures rs == [] <==> forall i :: 0 <= i < |trace| ==> !trace[i].Send?
    ensures forall r :: r in rs ==> Send(r) in trace
  {
    if trace == [] then []
    else (if trace[0].Send? then [trace[0].response] else []) + Responses(trace[1..])
  }

  /** The trace touches the filesystem. */
  predicate TouchesFilesystem(trace: seq<Step>) {
    exists i :: 0 <= i < |trace| && !trace[i].Send?
  }

  /** One `fs.stat` per directory entry, in the order `readdir` lists them. */
  function EntryStats(host: Host, dirPath: string, files: seq<string>): (steps: seq<Step>)
    ensures |steps| == |files|
    ensures forall k :: 0 <= k < |files| ==> steps[k] == StatPath(host.join(dirPath, files[k]))
  {
    if files == [] then [] else [StatPath(host.join(dirPath, files[0]))] + EntryStats(host, dirPath, files[1..])
  }

  /**
   * `fileList`: the entries with their stats, or the error of the first
   * entry whose stat fails.
   */
  function Entries(host: Host, dirPath: string, files: seq<string>): (r: FsResult<seq<Entry>>)
    ensures r.Ok? ==> |r.value| == |files|
    ensures r.Ok? ==> forall k :: 0 <= k < |files| ==> r.value[k].name == files[k]
    ensures r.Ok? ==> forall k :: 0 <= k < |files| ==>
      host.stat(host.join(dirPath, files[k])) == Ok(Stat(r.value[k].isDir, r.value[k].size))
    ensures r.Ok? <==> forall k :: 0 <= k < |files| ==> host.stat(host.join(dirPath, files[k])).Ok?
    ensures r.Err? ==> exists k :: 0 <= k < |files| && host.stat(host.join(dirPath, files[k])) == Err(r.code)
  {
    if files == [] then Ok([])
    else
      match host.stat(host.join(dirPath, files[0]))
      case Err(code) => Err(code)
      case Ok(st) =>
        match Entries(host, dirPath, files[1..])
        case Err(code) => Err(code)
        case Ok(rest) => Ok([Entry(files[0], st.isDirectory, st.size)] + rest)
  }

  /** The response to a listing: the page, or the error from `decodeURI`. */
  function ListingResponse(currentPath: string, entries: seq<Entry>, fm: Formatters): (r: Response)
    ensures r.status == 200 || r == HandleError(None)
    ensures r.status == 200 <==> fm.decodeUri(currentPath).Some?
    ensures r.status == 200 ==>
      r == Response(200, [Header("Content-Type", "text/html")], Listing(GenerateDirectoryHtml(currentPath, entries, fm).value))
  {
    match GenerateDirectoryHtml(currentPath, entries, fm)
    case None => HandleError(None)
    case Some(page) => Response(200, [Header("Content-Type", "text/html")], Listing(page))
  }

  /** `sendDirectoryListing(req, res, dirPath)` */
  function SendDirectoryListing(host: Host, req: Request, dirPath: string): (trace: seq<Step>)
    ensures |trace| >= 2 && trace[0] == ReadDir(dirPath) && trace[|trace| - 1].Send?
    ensures host.readdir(dirPath).Err? ==> trace == [ReadDir(dirPath), Send(HandleError(host.readdir(dirPath).code))]
    ensures host.readdir(dirPath).Ok? ==>
      var files := host.readdir(dirPath).value;
      trace[1..|trace| - 1] == EntryStats(host, dirPath, files)
      && trace[|trace| - 1].response ==
        match Entries(host, dirPath, files)
        case Err(code) => HandleError(code)
        case Ok(entries) => ListingResponse(req.path, entries, host.formatters)
  {
    match host.readdir(dirPath)
    case Err(code) => [ReadDir(dirPath), Send(HandleError(code))]
    case Ok(files) =>
      var stats := EntryStats(host, dirPath, files);
      var last := match Entries(host, dirPath, files)
        case Err(code) => HandleError(code)
        case Ok(entries) => ListingResponse(req.path, entries, host.formatters);
      [ReadDir(dirPath)] + stats + [Send(last)]
  }

  /** What the handler does once `fullPath` is known: stat it, then list it or send it. */
  function Serve(host: Host, req: Request, fullPath: string): (trace: seq<Step>)
    ensures |trace| >= 2 && trace[0] == StatPath(fullPath) && trace[|trace| - 1].Send?
    ensures host.stat(fullPath).Err? ==> trace == [StatPath(fullPath), Send(HandleError(host.stat(fullPath).code))]
    ensures host.stat(fullPath).Ok? && host.stat(fullPath).value.isDirectory ==>
      trace == [StatPath(fullPath)] + SendDirectoryListing(host, req, fullPath)
    ensures host.stat(fullPath).Ok? && !host.stat(fullPath).value.isDirectory ==>
      trace == [StatPath(fullPath), Send(SendFile(fullPath, host.stat(fullPath).value.size, req.range, host.mimeLookup(fullPath)))]
  {
    match host.stat(fullPath)
    case Err(code) => [StatPath(fullPath), Send(HandleError(code))]
    case Ok(st) =>
      if st.isDirectory then [StatPath(fullPath)] + SendDirectoryListing(host, req, fullPath)
      else [StatPath(fullPath), Send(SendFile(fullPath, st.size, req.range, host.mimeLookup(fullPath)))]
  }

  /**
   * The GET handler as written: after refusing a path outside the root
   * with 403 it does not return, and goes on to stat the path and attempt
   * to serve it.
   */
  function HandleGet(host: Host, rootPath: string, req: Request): (trace: seq<Step>)
    ensures |trace| > 0 && trace[|trace| - 1].Send?
  {
    match host.decodeComponent(req.path)
    case None => [Send(HandleError(None))]
    case Some(decoded) =>
      var fullPath := host.join(rootPath, decoded);
      var guard := if PrefixAllowed(host.resolve(fullPath), rootPath) then [] else [Send(Forbidden)];
      guard + Serve(host, req, fullPath)
  }

  /** The GET handler with the guard it evidently intends: contained paths only, and a `return` after 403. */
  function HandleGetFixed(host: Host, rootPath: string, req: Request): (trace: seq<Step>)
    ensures |trace| > 0 && trace[|trace| - 1].Send?
  {
    match host.decodeComponent(req.path)
    case None => [Send(HandleError(None))]
    case Some(decoded) =>
      var fullPath := host.join(rootPath, decoded);
      if WithinRoot(host.resolve(fullPath), rootPath) then Serve(host, req, fullPath)
      else [Send(Forbidden)]
  }

  /** A trace that ends in one response and has none before it. */
  predicate SingleResponse(trace: seq<Step>) {
    |trace| > 0 && trace[|trace| - 1].Send? && forall i :: 0 <= i < |trace| - 1 ==> !trace[i].Send?
  }

  lemma {:induction false} EntryStatsNoSend(host: Host, dirPath: string, files: seq<string>)
    ensures forall i :: 0 <= i < |EntryStats(host, dirPath, files)| ==> !EntryStats(host, dirPath, files)[i].Send?
  {
    if files != [] {
      EntryStatsNoSend(host, dirPath, files[1..]);
    }
  }

  /** A listing writes exactly one response, at its end. */
  lemma ListingSingleResponse(host: Host, req: Request, dirPath: string)
    ensures SingleResponse(SendDirectoryListing(host, req, dirPath))
  {
    if host.readdir(dirPath).Ok? {
      EntryStatsNoSend(host, dirPath, host.readdir(dirPath).value);
    }
  }

  /** Serving a path writes exactly one response, at its end. */
  lemma ServeSingleResponse(host: Host, req: Request, fullPath: string)
    ensures SingleResponse(Serve(host, req, fullPath))
  {
    var st := host.stat(fullPath);
    if st.Ok? && st.value.isDirectory {
      ListingSingleResponse(host, req, fullPath);
      var rest := SendDirectoryListing(host, req, fullPath);
      assert Serve(host, req, fullPath) == [StatPath(fullPath)] + rest;
      forall i | 0 <= i < |rest| ensures ([StatPath(fullPath)] + rest)[i + 1] == rest[i] { }
    }
  }

  /** The responses of a trace with a single response are that one response. */
  lemma {:induction false} SingleResponseResponses(trace: seq<Step>)
    requires SingleResponse(trace)
    ensures Responses(trace) == [trace[|trace| - 1].response]
  {
    if |trace| > 1 {
      assert SingleResponse(trace[1..]);
      SingleResponseResponses(trace[1..]);
      assert Responses(trace) == [] + Responses(trace[1..]);
    }
  }

  /** The responses of two traces one after the other. */
  lemma {:induction false} ResponsesConcat(a: seq<Step>, b: seq<Step>)
    ensures Responses(a + b) == Responses(a) + Responses(b)
  {
    if a == [] {
      assert a + b == b;
    } else {
      assert (a + b)[1..] == a[1..] + b;
      ResponsesConcat(a[1..], b);
      ConcatAssoc(if a[0].Send? then [a[0].response] else [], Responses(a[1..]), Responses(b));
    }
  }

  /**
   * As written, a path that fails the guard gets the 403 response and then
   * the handler stats it anyway and attempts a second write.
   */
  lemma ForbiddenThenServed(host: Host, rootPath: string, req: Request)
    requires host.decodeComponent(req.path).Some?
    requires !PrefixAllowed(host.resolve(host.join(rootPath, host.decodeComponent(req.path).value)), rootPath)
    ensures var fullPath := host.join(rootPath, host.decodeComponent(req.path).value);
      var trace := HandleGet(host, rootPath, req);
      |trace| >= 3 && trace[0] == Send(Forbidden) && trace[1] == StatPath(fullPath)
      && Responses(trace) == [Forbidden, trace[|trace| - 1].response]
  {
    var fullPath := host.join(rootPath, host.decodeComponent(req.path).value);
    var served := Serve(host, req, fullPath);
    ServeSingleResponse(host, req, fullPath);
    SingleResponseResponses(served);
    ResponsesConcat([Send(Forbidden)], served);
    assert Responses([Send(Forbidden)]) == [Forbidden] by {
      assert [Send(Forbidden)][1..] == [];
    }
  }

  /** A path that passes the guard is served with exactly one response. */
  lemma AllowedSingleResponse(host: Host, rootPath: string, req: Request)
    requires host.decodeComponent(req.path).Some?
    requires PrefixAllowed(host.resolve(host.join(rootPath, host.decodeComponent(req.path).value)), rootPath)
    ensures SingleResponse(HandleGet(host, rootPath, req))
  {
    var fullPath := host.join(rootPath, host.decodeComponent(req.path).value);
    ServeSingleResponse(host, req, fullPath);
    assert HandleGet(host, rootPath, req) == [] + Serve(host, req, fullPath);
  }

  /** The corrected handler always writes exactly one response. */
  lemma FixedSingleResponse(host: Host, rootPath: string, req: Request)
    ensures SingleResponse(HandleGetFixed(host, rootPath, req))
  {
    if host.decodeComponent(req.path).Some? {
      ServeSingleResponse(host, req, host.join(rootPath, host.decodeComponent(req.path).value));
    }
  }

  /**
   * The corrected handler refuses a path outside the root with 403 alone
   * and never touches the filesystem for it.
   */
  lemma FixedForbiddenOnly(host: Host, rootPath: string, req: Request)
    requires host.decodeComponent(req.path).Some?
    requires !WithinRoot(host.resolve(host.join(rootPath, host.decodeComponent(req.path).value)), rootPath)
    ensures HandleGetFixed(host, rootPath, req) == [Send(Forbidden)]
    ensures !TouchesFilesystem(HandleGetFixed(host, rootPath, req))
  {
  }

  /** For a path within the root both handlers do the same. */
  lemma HandlersAgreeWithinRoot(host: Host, rootPath: string, req: Request)
    requires host.decodeComponent(req.path).Some?
    requires WithinRoot(host.resolve(host.join(rootPath, host.decodeComponent(req.path).value)), rootPath)
    ensures HandleGet(host, rootPath, req) == HandleGetFixed(host, rootPath, req)
  {
    var fullPath := host.join(rootPath, host.decodeComponent(req.path).value);
    WithinRootIsAllowed(host.resolve(fullPath), rootPath);
    assert [] + Serve(host, req, fullPath) == Serve(host, req, fullPath);
  }

  /** A path that does not decode is answered 500 before anything else happens. */
  lemma MalformedPath(host: Host, rootPath: string, req: Request)
    requires host.decodeComponent(req.path).None?
    ensures HandleGet(host, rootPath, req) == [Send(Response(500, [], Text("Internal server error")))]
  {
  }

  /** A missing file inside the root is answered 404 after its stat. */
  lemma MissingFile(host: Host, rootPath: string, req: Request)
    requires host.decodeComponent(req.path).Some?
    requires var fullPath := host.join(rootPath, host.decodeComponent(req.path).value);
      PrefixAllowed(host.resolve(fullPath), rootPath) && host.stat(fullPath) == Err(Some("ENOENT"))
    ensures var fullPath := host.join(rootPath, host.decodeComponent(req.path).value);
      HandleGet(host, rootPath, req) == [StatPath(fullPath), Send(Response(404, [], Text("File not found")))]
  {
    var fullPath := host.join(rootPath, host.decodeComponent(req.path).value);
    assert [] + Serve(host, req, fullPath) == Serve(host, req, fullPath);
  }

  /** A regular file inside the root is answered by `sendFile` after its stat. */
  lemma RegularFileServed(host: Host, rootPath: string, req: Request)
    requires host.decodeComponent(req.path).Some?
    requires var fullPath := host.join(rootPath, host.decodeComponent(req.path).value);
      PrefixAllowed(host.resolve(fullPath), rootPath)
      && host.stat(fullPath).Ok? && !host.stat(fullPath).value.isDirectory
    ensures var fullPath := host.join(rootPath, host.decodeComponent(req.path).value);
      HandleGet(host, rootPath, req)
        == [StatPath(fullPath), Send(SendFile(fullPath, host.stat(fullPath).value.size, req.range, host.mimeLookup(fullPath)))]
  {
    var fullPath := host.join(rootPath, host.decodeComponent(req.path).value);
    assert [] + Serve(host, req, fullPath) == Serve(host, req, fullPath);
  }
}
