/**
 * The response the server writes, as a record instead of the calls on
 * Express's response object (`res.status`, `res.header`, `res.send`,
 * `res.type` and a file stream piped into `res`).
 */
module Http {
  import opened JsNumbers

  datatype Option<+T> = None | Some(value: T)

  datatype Header = Header(name: string, value: string)

  /**
   * The parts of a directory-listing page that depend on the request: the
   * text of the `<title>`, the text of the `<h1>` and the concatenated
   * `<li>` items.  The surrounding template is fixed text.
   */
  datatype ListingPage = ListingPage(title: string, heading: string, items: string)

  datatype Body =
    | Text(text: string)                              // res.send(text)
    | Listing(page: ListingPage)                      // res.type('html').send(html)
    | FileBytes(path: string, start: Num, end: Num)   // createReadStream(path, { start, end }).pipe(res)
    | WholeFile(path: string)                         // createReadStream(path).pipe(res)

  /** A status, the headers set explicitly, in the order they are set, and the body. */
  datatype Response = Response(status: int, headers: seq<Header>, body: Body)
}
