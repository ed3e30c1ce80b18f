# A verified model of a minimal Express static-file server

The server (`src/index.ts`) answers every GET request from a root directory.
It percent-decodes the request path and joins it onto the root. A path whose
resolved form does not start with the root is refused with 403. It then stats
the path and either renders an HTML listing of the directory or streams the
file, honouring a `Range: bytes=<start>-<end>` header. Failures are turned
into 404, 403 or 500 by `handleError`. At start-up `checkPathAndAddress`
validates the root directory and the `ip:port` bind address.

The model is written as pure Dafny functions over values. The one exception is
`checkPathAndAddress`, which the source writes as a loop with early exits and
which becomes a method with a `for` loop proved against a specification
function. Each Express response becomes a `Response` record: status, the
headers set explicitly, and a body. The GET handler becomes the sequence of
steps it takes: the filesystem calls it makes, then the responses it writes.
The library calls whose code is not part of this model are passed in as
function-valued fields of a `Host` or `Formatters` record:

- `decodeURIComponent`, `decodeURI`, `encodeURIComponent`;
- `path.join`, `path.resolve`;
- `mime.lookup`;
- `fs.stat`, `fs.readdir`;
- the floating-point part of `formatFileSize`.

The start-up check takes its two library calls, `path.resolve` and
`fs.existsSync`, as plain function parameters (`resolve`, `pathExists`) of
`StartupConfig.Validate` and `StartupConfig.CheckPathAndAddress`.

JavaScript semantics are modelled explicitly where the server depends on them:

- `parseInt` skips leading ECMAScript white space and reads an optional sign,
  then the longest run of digits. It returns NaN when there are no digits.
  Without a radix it also reads a `0x` prefix as hexadecimal.
- Every comparison with NaN is false, so a NaN bound or octet passes every
  range test.
- `String.prototype.split` is modelled on a single character.
- `replace(/bytes=/, "")` removes the first occurrence of `bytes=`, wherever
  it stands.
- A number is printed inside a template literal the way JavaScript prints it,
  so NaN is printed as `NaN`.

Modules: `JsStrings`, `JsNumbers`, `HtmlEscape`, `Http`, `ErrorTranslation`,
`ContentResponder` (`sendFile`), `DirectoryRenderer` (`generateDirectoryHtml`,
`formatFileSize`), `Sandbox` (the traversal guard), `RequestHandler` (the GET
handler, `sendDirectoryListing`) and `StartupConfig` (`checkPathAndAddress`).

The model reproduces the code's own behaviour, including where it falls short
of what it evidently intends:

- the traversal guard is a raw prefix test, not a separator-bounded one, and
  the handler does not stop after sending 403;
- `start <= end` is never checked, and a NaN start (as in the suffix range
  `bytes=-500`) passes the 416 test, so the 206 headers are set for it;
- the link `href` is not HTML-escaped, only the displayed name is;
- the listing stats every entry, and if one stat fails the whole listing
  fails.

## Model

| member | source | states |
|---|---|---|
| HtmlEscape.EscapeChar | src/index.ts:9-17 | the replacement of one character starts with `&` exactly when the character is one of the five special ones |
| HtmlEscape.EscapeHtml | src/index.ts:8-19 | the escaped text contains no raw `<`, `>`, `"` or `'`, and is at least as long as its input |
| HtmlEscape.EscapedAmpersands | src/index.ts:8-19 | every `&` in the escaped text begins one of `&amp;`, `&lt;`, `&gt;`, `&quot;`, `&#39;` |
| HtmlEscape.EscapeConcat | src/index.ts:8-19 | escaping is done character by character: the escape of a concatenation is the concatenation of the escapes |
| HtmlEscape.UnescapeEscapeThen | src/index.ts:8-19 | decoding the five references in escaped text followed by any text gives back the original text, then decodes what follows |
| HtmlEscape.UnescapeEscape | src/index.ts:8-19 | decoding the escaped text gives back exactly the input, so all other characters pass through unchanged and in order |
| HtmlEscape.EscapeInjective | src/index.ts:8-19 | two texts with the same escape are equal |
| HtmlEscape.EscapePlain | src/index.ts:8-19 | text without special characters is left unchanged |
| ErrorTranslation.HandleError | src/index.ts:138-150 | `ENOENT` gives 404 "File not found", `EACCES` gives 403 "Permission denied", every other code (or none) gives 500 "Internal server error", with no headers set |
| JsStrings.Split | src/index.ts:109 | `split` always yields at least one piece |
| JsStrings.SplitPiecesFree | src/index.ts:109 | no piece of a split contains the separator |
| JsStrings.JoinSplit | src/index.ts:109 | joining the pieces of a split with the separator gives back the string |
| JsStrings.SplitJoin | src/index.ts:168-175 | splitting a join of separator-free pieces gives back the pieces |
| JsStrings.SplitAfterPiece | src/index.ts:109 | a separator-free piece followed by the separator splits off as the first piece |
| JsStrings.SplitFirstPiece | src/index.ts:109 | a separator-free prefix extends the first piece and leaves the later pieces unchanged |
| JsStrings.RemoveFirst | src/index.ts:109 | `replace(/bytes=/, "")` removes the pattern once or leaves the text as it is |
| JsStrings.RemoveFirstAt | src/index.ts:109 | when the first occurrence of the pattern starts at `i`, the result is the text before `i` followed by the text after the occurrence |
| JsStrings.RemoveFirstAbsent | src/index.ts:109 | a header without `bytes=` is left unchanged |
| JsStrings.RemoveFirstPrefix | src/index.ts:109 | a header starting with `bytes=` loses exactly that prefix |
| JsStrings.TrimStart | src/index.ts:110 | every character removed is white space, and the trimmed text is no longer than the input and does not start with white space |
| JsStrings.TrimStartSuffix | src/index.ts:110 | the trimmed text is a suffix of the input |
| JsNumbers.SpanLength | src/index.ts:120 | `end - start + 1` is a number exactly when both bounds are, and then equals their difference plus one |
| JsNumbers.ParseInt | src/index.ts:110 | `parseInt(s, 10)` and `parseInt(s)`: white space, sign, digits; its properties are proved by `ParseFromDigit`, `ParseMinus`, `ParseIntString` and `ParseAutoDecimal` |
| JsNumbers.ReadUnsigned | src/index.ts:182-189 | the digits read after the sign give NaN or a non-negative number; without a radix a `0x` prefix selects hexadecimal (`HexadecimalPort`) |
| JsNumbers.IntString | src/index.ts:115 | an integer in a template literal; `ParseIntString` proves that `parseInt` reads it back |
| JsNumbers.NumString | src/index.ts:122 | a number in a template literal, `NaN` for NaN; `SuffixRangeAccepted` shows it in a header |
| JsNumbers.DigitValue | src/index.ts:110 | a character is a decimal digit exactly when its digit value is below 10 |
| JsNumbers.DigitPrefixSpec | src/index.ts:110 | the digits `parseInt` reads are a prefix of the text, all digits, and stop at the first non-digit |
| JsNumbers.DecimalString | src/index.ts:115 | the decimal text of a number is never empty |
| JsNumbers.DecimalDigits | src/index.ts:115 | the decimal text consists of digits, and starts with `0` only for zero |
| JsNumbers.ValueOfDecimal | src/index.ts:110 | reading the decimal text of `n` gives `n` |
| JsNumbers.DigitPrefixOf | src/index.ts:110 | digits followed by a non-digit are exactly the digits `parseInt` reads |
| JsNumbers.ParseFromDigit | src/index.ts:110 | text starting with a digit (and no hexadecimal prefix) parses to the value of its leading digits |
| JsNumbers.ParseDecimal | src/index.ts:110 | `parseInt(String(n) + rest, 10) == n` whenever `rest` does not start with a digit |
| JsNumbers.ParseMinus | src/index.ts:110 | a leading `-` negates the number that follows it |
| JsNumbers.ParseNegativeString | src/index.ts:110 | the text of a negative integer parses back to that integer |
| JsNumbers.ParseIntString | src/index.ts:110 | `parseInt(String(i), 10) == i` for every integer |
| JsNumbers.ParseAutoDecimal | src/index.ts:182 | without a radix, decimal text parses as with radix 10 unless a `0x` prefix follows a leading zero |
| ContentResponder.ContentType | src/index.ts:103 | the content type is never empty; it is the looked-up type when one is found, and `application/octet-stream` otherwise |
| ContentResponder.RangeBounds | src/index.ts:109-111 | the bounds read from a header; `BoundsNeverNegative`, `SingleRangeBounds`, `OpenEndedBounds`, `MultiRangeBounds` and `SuffixRangeBounds` state what they are |
| ContentResponder.BoundsOfParts | src/index.ts:110-111 | the start from the first piece and the end from a non-empty second piece or `fileSize - 1`; `OpenEndedBounds` states the fallback |
| ContentResponder.NotSatisfiable | src/index.ts:114-116 | the 416 response; `RangeResponse` states when it is sent and its single header |
| ContentResponder.PartialContent | src/index.ts:120-128 | the 206 response; `RangeResponse` and `PartialContentNumeric` state its headers |
| ContentResponder.FullContent | src/index.ts:130-134 | the 200 response; `SendFile` states when it is sent |
| ContentResponder.RangeResponse | src/index.ts:113-128 | 416 exactly when a numeric bound is at or past the end of the file, with only `Content-Range: bytes */<size>` and a text body; otherwise 206 with `Content-Range: bytes <start>-<end>/<size>`, `Accept-Ranges: bytes`, `Content-Length: <end-start+1>` (NaN when a bound is NaN) and the content type, requesting exactly the bounds read |
| ContentResponder.SendFile | src/index.ts:102-136 | status 200, 206 or 416; 200 exactly when the header is absent or empty, and then `Content-Length: <size>` and the whole file; 416 sends no bytes |
| ContentResponder.StripBytesUnit | src/index.ts:109 | a header `bytes=<rest>` is read from the `-`-pieces of `<rest>` |
| ContentResponder.NoMinusNoNegative | src/index.ts:110-111 | a piece without `-` never parses to a negative number |
| ContentResponder.BoundsNeverNegative | src/index.ts:109-111 | the start read from any header is NaN or non-negative; the end is NaN, non-negative, or the fallback `fileSize - 1` |
| ContentResponder.PartialContentWithinFile | src/index.ts:110-128 | a requested interval never has a numeric start outside `0..size-1` or a numeric end outside `-1..size-1` |
| ContentResponder.ParseWhole | src/index.ts:110 | the decimal text of a number alone parses back to it |
| ContentResponder.SingleRangeBounds | src/index.ts:109-111 | `bytes=<a>-<b>` is read as start `a` and end `b` |
| ContentResponder.OpenEndedBounds | src/index.ts:111 | `bytes=<a>-` is read with the end defaulting to `fileSize - 1` |
| ContentResponder.MultiRangeBounds | src/index.ts:109-111 | `bytes=<a>-<b>,<rest>` is read as its first range alone: `parseInt` stops at the comma |
| ContentResponder.SuffixRangeBounds | src/index.ts:109-111 | `bytes=-<b>` is read with a NaN start and end `b` |
| ContentResponder.SendFileWithRange | src/index.ts:108-113 | a non-empty header is answered from the bounds read from it |
| ContentResponder.PartialContentNumeric | src/index.ts:120-126 | for numeric bounds the 206 headers are `Content-Range: bytes <a>-<b>/<size>`, `Accept-Ranges: bytes`, `Content-Length: <b-a+1>` and the content type |
| ContentResponder.SingleRange | src/index.ts:107-128 | `bytes=<a>-<b>` gives 416 when `a` or `b` is at or past the end, and otherwise sets the 206 headers `Content-Range: bytes a-b/size` and `Content-Length: b-a+1` and requests `a..b` |
| ContentResponder.FromStartBounds | src/index.ts:109-111 | `bytes=0-` is read as start 0 and end `fileSize - 1` |
| ContentResponder.FromStartRange | src/index.ts:109-128 | `bytes=0-` on a non-empty file gives 206 with `bytes 0-<S-1>/<S>`, length `S`, requesting the whole file; on an empty file it gives 416 |
| ContentResponder.FromStartHeaders | src/index.ts:120-126 | the 206 headers for `0..S-1` are `bytes 0-<S-1>/<S>` and length `S` |
| ContentResponder.SuffixRangeAccepted | src/index.ts:110-128 | a suffix range `bytes=-<b>` inside the file passes the 416 test, and the 206 headers are set with `bytes NaN-<b>/<size>` and `Content-Length: NaN` |
| DirectoryRenderer.DirPrefix | src/index.ts:70 | the normalised path ends in `/`, starts with the current path, and is the current path itself when that already ends in `/` |
| DirectoryRenderer.Href | src/index.ts:69-70 | the link of an entry; `HrefStartsWith` and `HrefEndsWithSlash` state its parts |
| DirectoryRenderer.HrefStartsWith | src/index.ts:70 | the link starts with the current path when that ends in `/`, and with the current path plus `/` otherwise; the encoded name and the directory mark follow |
| DirectoryRenderer.HrefEndsWithSlash | src/index.ts:70 | a directory's link ends in `/`; for a non-empty encoded name not ending in `/`, the link ends in `/` exactly when the entry is a directory |
| DirectoryRenderer.FormatFileSize | src/index.ts:152-156 | size 0 is shown as `0 B` without the logarithmic scaling; other sizes use the scaled text |
| DirectoryRenderer.SizeColumn | src/index.ts:71 | the size column; `SizeDashIffDirectory` and `EmptyFileSize` state its values |
| DirectoryRenderer.Label | src/index.ts:74 | the link text; `LabelReadsBack` states that it holds no raw markup and decodes to the name and the directory mark |
| DirectoryRenderer.RenderItem | src/index.ts:70-76 | the `<li>` of one entry as the template writes it, built from `Href`, `Label` and `SizeColumn` |
| DirectoryRenderer.Items | src/index.ts:68-77 | the items joined in list order; `ItemsConcat` and `ItemAt` state the order |
| DirectoryRenderer.SizeDashIffDirectory | src/index.ts:71 | the size column is `-` exactly for directories |
| DirectoryRenderer.EmptyFileSize | src/index.ts:71 | an empty file's size column is `0 B` |
| DirectoryRenderer.LabelReadsBack | src/index.ts:74 | the link text contains no raw markup and decodes to the entry's name followed by `/` for a directory |
| DirectoryRenderer.ItemsConcat | src/index.ts:68-77 | joining the items distributes over concatenation of the entry lists |
| DirectoryRenderer.ItemAt | src/index.ts:68-77 | the `k`-th entry's item stands, in order, between the items of the entries before and after it |
| DirectoryRenderer.GenerateDirectoryHtml | src/index.ts:67-100 | the page fails exactly when `decodeURI(currentPath)` throws; its title and heading contain no raw markup |
| DirectoryRenderer.PageReadsBack | src/index.ts:83-96 | the title decodes to `decodeURI(currentPath)`, the heading to `currentPath`, and the list holds the joined items |
| Sandbox.PrefixAllowed | src/index.ts:32 | the guard as written; `SiblingAdmitted` and `WithinRootIsBoundedPrefix` state how it differs from containment |
| Sandbox.SiblingAdmitted | src/index.ts:32 | with a root not ending in `/`, any path that extends the root's last segment passes the guard although it is not within the root |
| Sandbox.SiblingExample | src/index.ts:32 | `/srv/storage2/secret` passes the guard for root `/srv/storage` and is not within it |
| Sandbox.WithinRootIsBoundedPrefix | src/index.ts:32 | a path is within the root exactly when it passes the prefix test and the root is followed by `/` there, ends there, or itself ends in `/` |
| Sandbox.WithinRootIsAllowed | src/index.ts:32 | the containment test is stricter than the guard as written |
| RequestHandler.Responses | src/index.ts:24-49 | the responses are empty exactly when the trace has no write, and each one is written by a step of the trace |
| RequestHandler.EntryStats | src/index.ts:53-55 | one step per directory entry, in `readdir` order: step `k` is `fs.stat(path.join(dirPath, files[k]))` |
| RequestHandler.Entries | src/index.ts:53-61 | the entries are produced exactly when every stat succeeds, and then there is one per name, in the order `readdir` lists them, carrying that name and the `isDirectory()` and `size` of its own stat; a failure carries the error code of a stat that failed |
| RequestHandler.ListingResponse | src/index.ts:63-64 | status 200 exactly when `decodeURI` succeeds, and then the page of `generateDirectoryHtml` with `Content-Type: text/html`; otherwise the 500 of `handleError` |
| RequestHandler.SendDirectoryListing | src/index.ts:51-65 | the directory is read first; a `readdir` failure writes `handleError` of its code; otherwise one stat per entry follows and the response written is `handleError` of the failing stat's code, or the listing response for the entries |
| RequestHandler.Serve | src/index.ts:38-44 | the full path is stat-ed first; a stat failure writes `handleError` of its code; a directory continues with the listing of that path; a file writes the `sendFile` response for its size and MIME lookup |
| RequestHandler.HandleGet | src/index.ts:24-49 | every request ends with a response written |
| RequestHandler.HandleGetFixed | src/index.ts:24-49 | every request ends with a response written |
| RequestHandler.ListingSingleResponse | src/index.ts:51-65 | a listing writes exactly one response, as its last step |
| RequestHandler.ServeSingleResponse | src/index.ts:38-44 | serving a path writes exactly one response, as its last step |
| RequestHandler.ForbiddenThenServed | src/index.ts:32-38 | a path that fails the guard gets 403, is then stat-ed anyway, and a second write is attempted |
| RequestHandler.AllowedSingleResponse | src/index.ts:28-44 | a path that passes the guard gets exactly one response |
| RequestHandler.FixedSingleResponse | src/index.ts:24-49 | the corrected handler writes exactly one response for every request |
| RequestHandler.FixedForbiddenOnly | src/index.ts:32-34 | the corrected handler answers a path outside the root with 403 alone and makes no filesystem call |
| RequestHandler.HandlersAgreeWithinRoot | src/index.ts:28-44 | for a path within the root the handler as written and the corrected one take the same steps |
| RequestHandler.MalformedPath | src/index.ts:28 | a path that `decodeURIComponent` rejects is answered 500 before any filesystem call |
| RequestHandler.MissingFile | src/index.ts:38-46 | a missing file that passes the guard is stat-ed and answered 404 "File not found" |
| RequestHandler.RegularFileServed | src/index.ts:38-44 | a regular file that passes the guard is stat-ed and answered by `sendFile` with its size and content type |
| StartupConfig.OctetRejected | src/index.ts:182 | an octet is refused when `parseInt` reads a number outside 0..255; `LettersAccepted` shows NaN is not refused |
| StartupConfig.PortRejected | src/index.ts:189 | a port is refused when `parseInt` reads a number outside 0..65535 |
| StartupConfig.ValidateAddress | src/index.ts:168-194 | the address part of the check; `ValidateAddressSucceeds` characterises acceptance both ways and `WellFormedAddress` gives the ip and port back |
| StartupConfig.Validate | src/index.ts:160-194 | `InvalidPath` exactly when the resolved root does not exist; otherwise the address check decides, and success returns the resolved root with its ip and port |
| StartupConfig.CheckPathAndAddress | src/index.ts:160-195 | the result of the check with its early exits equals the specification: `InvalidPath`, `InvalidAddress`, `InvalidIp` or `InvalidPort`, or the resolved root, the ip and `parseInt(port)` |
| StartupConfig.ValidateAddressSucceeds | src/index.ts:168-194 | the address is accepted exactly when it has two `:`-pieces, the ip has four `.`-pieces, no octet is a number outside 0..255 and the port is not a number outside 0..65535; the ip and `parseInt(port)` are returned |
| StartupConfig.WellFormedAddress | src/index.ts:168-194 | four octets and a port free of the separators, passing their range tests, are accepted and returned as written |
| StartupConfig.DefaultNumbers | src/index.ts:182-189 | `parseInt("0")` is 0 and `parseInt("8080")` is 8080 |
| StartupConfig.DefaultAddress | src/index.ts:216 | the default address `0.0.0.0:8080` is accepted with port 8080 |
| StartupConfig.NoDigitIsNaN | src/index.ts:182 | text starting with a character that is not white space, a sign or a digit parses to NaN |
| StartupConfig.LettersAccepted | src/index.ts:182-189 | non-numeric octets and ports pass the range tests |
| StartupConfig.NotANumberAccepted | src/index.ts:168-194 | `a.b.c.d:x` is accepted, with a NaN port |
| StartupConfig.HexadecimalPort | src/index.ts:189 | `parseInt("0x50")` is 80 while `parseInt("0x50", 10)` is 0 |

## Left out

- Express routing, `app.listen` and the calls on the response object are not modelled. Each response is a returned record. The headers that `res.send` and `res.type` add by themselves (`Content-Length`, `ETag`, the charset) are not part of it.
- What Express does with the second write after the 403 is not modelled. The trace records that the handler attempts it. The 403 has already sent the headers, so the next header call throws `ERR_HTTP_HEADERS_SENT` before any file or listing byte goes out. That call is `res.status(...).header` or `res.header` in `sendFile`, `res.type` in `sendDirectoryListing`, or the `send` in `handleError`. Every branch ends with `handleError` running in the `catch` block: either the throw of a later header call brings it there, or the branch itself is a failure. Its `send` then sets a header and throws again, this time from inside `catch`. So for every path the guard refuses, the handler's promise rejects and nothing handles it. Express 4 ignores the promise a handler returns, so on Node 15 or later, where an unhandled rejection ends the process by default, such a request would stop the server.
- `fs.stat`, `fs.readdir`, `fs.existsSync` and `createReadStream(...).pipe(res)` are I/O. They are given as functions, or as a body that names the file and the interval.
- `createReadStream` is not interpreted, so the model does not capture its synchronous throw for a NaN or reversed interval. The two lines below say what the client then receives.
- ContentResponder.SuffixRangeAccepted: states the headers that lines 113-126 set, not what the client receives. `createReadStream(filePath, { start, end })` throws synchronously when `start` is NaN. The `catch` of the handler then runs `handleError`, which answers 500 "Internal server error", with the 206 `Content-Range` and `Accept-Ranges` headers already set.
- ContentResponder.SingleRange: states the headers that lines 113-126 set. For a reversed range such as `bytes=9-3`, `createReadStream` throws synchronously because `start > end`, and the client gets 500 from `handleError` instead of the 206 body. The same happens to a NaN end, as in `bytes=5-x`.
- `Promise.all` runs the entry stats concurrently. The model issues them in list order and reports the error of the first failing entry in that order. The code reports whichever rejection settles first.
- `decodeURIComponent`, `decodeURI`, `encodeURIComponent`, `path.join`, `path.resolve` and `mime.lookup` are library code. They are uninterpreted function parameters, so nothing about `..` normalisation or symbolic links is modelled.
- The floating-point body of `formatFileSize` (`Math.log`, `Math.pow`, `toFixed`) is the `scaled` parameter. Only the zero guard is modelled.
- The fixed HTML and CSS of the page template are not modelled. `ListingPage` holds only the title text, the heading text and the joined items.
- `console.log`, `console.error` and `process.exit` are left out. A failed start-up check returns the error named after its message instead of exiting.
- The `process.argv` dispatch and the module-level `ip`, `port` and `rootPath` variables are left out. The default address is covered by `StartupConfig.DefaultAddress`.
- Numbers are unbounded integers. Doubles beyond 2^53, `-0` and the exponent notation of large numbers are not modelled.
- UTF-16 code units are not distinguished from code points.
- DirectoryRenderer.HrefEndsWithSlash: the if-and-only-if holds only when the encoded name is non-empty and does not end in `/`. `encodeURIComponent` guarantees this for a non-empty name, but that function is not interpreted here.
- DirectoryRenderer.SizeDashIffDirectory: requires that the scaled text of a non-empty file is not `-`, because the scaling is not interpreted here.
- ContentResponder.PartialContentWithinFile: does not exclude NaN bounds, and does not guarantee `start <= end`, because the code checks neither.

## Findings

| source | as written | input that shows it | evidently intended | confidence | as-written member | corrected member |
|---|---|---|---|---|---|---|
| src/index.ts:32 | `path.resolve(fullPath).startsWith(rootPath)` with no separator boundary | root `/srv/storage`, resolved path `/srv/storage2/secret` passes | only the root itself or paths below it (root followed by `/`) pass | high (not executed) | Sandbox.SiblingAdmitted | Sandbox.WithinRootIsBoundedPrefix |
| src/index.ts:32-38 | no `return` after `res.status(403).send('Forbidden')` | any path outside the root: 403 is written, then the path is stat-ed and a second write is attempted, which throws `ERR_HTTP_HEADERS_SENT`; every branch then reaches `handleError` in `catch`, whose `send` throws again, so the rejection is always unhandled (under Express 4 on Node 15 or later this ends the process) | the handler stops after sending 403 | high (not executed) | RequestHandler.ForbiddenThenServed | RequestHandler.FixedForbiddenOnly |
