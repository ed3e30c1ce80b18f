/**
 * `handleError`: the single place where a failure of a request turns into
 * a response.  The error is represented by its `code` property, which is
 * absent for errors that are not system errors (a `URIError` from
 * decoding the path, for one).
 */
module ErrorTranslation {
  import opened Http

  /** `handleError(error, res)` for an error whose `code` is `code`. */
  function HandleError(code: Option<string>): (r: Response)
    ensures r.headers == [] && r.body.Text?
    ensures r.status == 404 <==> code == Some("ENOENT")
    ensures r.status == 403 <==> code == Some("EACCES")
    ensures r.status in {403, 404, 500}
    ensures r.status == 404 ==> r.body.text == "File not found"
    ensures r.status == 403 ==> r.body.text == "Permission denied"
    ensures r.status == 500 ==> r.body.text == "Internal server error"
  {
    match code
    case Some("ENOENT") => Response(404, [], Text("File not found"))
    case Some("EACCES") => Response(403, [], Text("Permission denied"))
    case _ => Response(500, [], Text("Internal server error"))
  }
}
