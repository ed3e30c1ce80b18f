/**
 * `sendFile`: the response for a regular file, whole or as the byte range
 * a `Range` header asks for.  The header is read as the code reads it:
 * the first `bytes=` is removed, the rest is split on `-`, and the first
 * two pieces are read with `parseInt(_, 10)`.  Nothing checks that the
 * start is a number or that it does not exceed the end.
 */
module ContentResponder {
  import opened JsStrings
  import opened JsNumbers
  import opened Http

  /** `mime.lookup(filePath) || 'application/octet-stream'`; a lookup that fails is None. */
  function ContentType(lookup: Option<string>): (t: string)
    ensures t != []
    ensures lookup.Some? && lookup.value != [] ==> t == lookup.value
    ensures lookup.None? || lookup.value == [] ==> t == "application/octet-stream"
  {
    if lookup.Some? && lookup.value != [] then lookup.value else "application/octet-stream"
  }

  datatype Bounds = Bounds(start: Num, end: Num)

  /**
   * The `start` and `end` read from a `Range` header: `end` falls back to
   * `fileSize - 1` when there is no second piece or it is empty.
   */
  function RangeBounds(range: string, fileSize: int): Bounds {
    BoundsOfParts(Split(RemoveFirst(range, "bytes="), '-'), fileSize)
  }

  /** The bounds read from the pieces of the header. */
  function BoundsOfParts(parts: seq<string>, fileSize: int): Bounds
    requires |parts| > 0
  {
    var start := ParseInt(parts[0], false);
    var end := if |parts| > 1 && parts[1] != [] then ParseInt(parts[1], false) else Int(fileSize - 1);
    Bounds(start, end)
  }

  /** The response to a range the 416 test rejects. */
  function NotSatisfiable(fileSize: nat): Response {
    Response(416, [Header("Content-Range", "bytes */" + IntString(fileSize))], Text("Range Not Satisfiable"))
  }

  /** The response requesting bytes `start..end` of the file. */
  function PartialContent(filePath: string, fileSize: nat, start: Num, end: Num, mimeType: string): Response {
    Response(206,
      [ Header("Content-Range", "bytes " + NumString(start) + "-" + NumString(end) + "/" + IntString(fileSize)),
        Header("Accept-Ranges", "bytes"),
        Header("Content-Length", NumString(SpanLength(start, end))),
        Header("Content-Type", mimeType) ],
      FileBytes(filePath, start, end))
  }

  /** The response requesting the whole file; the status is Express's default. */
  function FullContent(filePath: string, fileSize: nat, mimeType: string): Response {
    Response(200, [Header("Content-Length", IntString(fileSize)), Header("Content-Type", mimeType)], WholeFile(filePath))
  }

  /** The answer to a `Range` header whose bounds are `b`: 416, or 206 requesting `b`. */
  function RangeResponse(filePath: string, fileSize: nat, b: Bounds, mimeType: string): (r: Response)
    ensures r.status == 416 <==> b.start.AtLeast(fileSize) || b.end.AtLeast(fileSize)
    ensures r.status == 416 ==> r.body.Text? && r.headers == [Header("Content-Range", "bytes */" + IntString(fileSize))]
    ensures r.status != 416 ==> r.status == 206 && r.body == FileBytes(filePath, b.start, b.end)
    ensures r.status == 206 ==> (r.headers ==
      [ Header("Content-Range", "bytes " + NumString(b.start) + "-" + NumString(b.end) + "/" + IntString(fileSize)),
        Header("Accept-Ranges", "bytes"),
        Header("Content-Length", NumString(SpanLength(b.start, b.end))),
        Header("Content-Type", mimeType) ])
  {
    if b.start.AtLeast(fileSize) || b.end.AtLeast(fileSize) then NotSatisfiable(fileSize)
    else PartialContent(filePath, fileSize, b.start, b.end, mimeType)
  }

  /**
   * `sendFile(req, res, filePath, stat)` with `stat.size == fileSize`,
   * `req.headers.range == range` and `mime.lookup(filePath) == lookup`.
   * An empty header counts as no header, as `if (range)` does.
   */
  function SendFile(filePath: string, fileSize: nat, range: Option<string>, lookup: Option<string>): (r: Response)
    ensures r.status in {200, 206, 416}
    ensures r.status == 200 <==> range == None || range == Some("")
    ensures r.status == 200 ==> r == FullContent(filePath, fileSize, ContentType(lookup))
    ensures r.status == 416 ==> r.body.Text? && r.headers == [Header("Content-Range", "bytes */" + IntString(fileSize))]
    ensures r.status == 206 ==> r.body.FileBytes? && r.body.path == filePath
  {
    var mimeType := ContentType(lookup);
    if range.Some? && range.value != [] then RangeResponse(filePath, fileSize, RangeBounds(range.value, fileSize), mimeType)
    else FullContent(filePath, fileSize, mimeType)
  }

  /** A decimal digit is not a separator. */
  lemma DigitsFree(n: nat, c: char)
    requires !IsDigit(c, 10)
    ensures Free(DecimalString(n), c)
  {
    DecimalDigits(n);
  }

  /** A string without the separator splits into itself alone. */
  lemma SplitWhole(s: string, c: char)
    requires Free(s, c)
    ensures Split(s, c) == [s]
  {
    SplitJoin([s], c);
  }

  /** Neither piece of a `Range` header holds a minus sign, so `parseInt` never reads one. */
  lemma {:induction false} NoMinusNoNegative(s: string)
    requires Free(s, '-')
    ensures ParseInt(s, false).Int? ==> ParseInt(s, false).value >= 0
  {
    var t := TrimStart(s);
    TrimStartSuffix(s);
    if t != [] {
      assert t[0] == s[|s| - |t|];
    }
  }

  /**
   * Whatever the header, the start read from it is NaN or non-negative, and
   * so is an end read from it; the fallback end is `fileSize - 1`.
   */
  lemma BoundsNeverNegative(range: string, fileSize: int)
    ensures var b := RangeBounds(range, fileSize);
      (b.start.Int? ==> b.start.value >= 0) && (b.end.Int? ==> b.end.value >= 0 || b.end.value == fileSize - 1)
  {
    var parts := Split(RemoveFirst(range, "bytes="), '-');
    SplitPiecesFree(RemoveFirst(range, "bytes="), '-');
    NoMinusNoNegative(parts[0]);
    if |parts| > 1 {
      NoMinusNoNegative(parts[1]);
    }
  }

  /**
   * A requested range always lies within the file: a numeric start is in
   * `0..fileSize-1` and a numeric end in `-1..fileSize-1` (the end is `-1`
   * only for an empty file whose start is NaN).  A NaN bound is not excluded.
   */
  lemma PartialContentWithinFile(filePath: string, fileSize: nat, range: Option<string>, lookup: Option<string>)
    ensures var r := SendFile(filePath, fileSize, range, lookup);
      r.body.FileBytes? ==>
        (r.body.start.Int? ==> 0 <= r.body.start.value < fileSize) &&
        (r.body.end.Int? ==> -1 <= r.body.end.value < fileSize)
  {
    if range.Some? {
      BoundsNeverNegative(range.value, fileSize);
    }
  }

  /** A header starting with `bytes=` is read from the pieces of the rest. */
  lemma StripBytesUnit(rest: string, fileSize: int)
    ensures RangeBounds("bytes=" + rest, fileSize) == BoundsOfParts(Split(rest, '-'), fileSize)
  {
    RemoveFirstPrefix("bytes=", rest);
  }

  /** The decimal text of a number, alone, reads back as the number. */
  lemma ParseWhole(n: nat)
    ensures ParseInt(DecimalString(n), false) == Int(n)
  {
    ParseDecimal(n, []);
    assert DecimalString(n) + [] == DecimalString(n);
  }

  lemma SingleRangeParts(a: nat, b: nat)
    ensures Split(DecimalString(a) + "-" + DecimalString(b), '-') == [DecimalString(a), DecimalString(b)]
  {
    DigitsFree(a, '-');
    DigitsFree(b, '-');
    SplitAfterPiece(DecimalString(a), '-', DecimalString(b));
    SplitWhole(DecimalString(b), '-');
  }

  lemma SingleRangeBoundsGrouped(a: nat, b: nat, fileSize: int)
    ensures RangeBounds("bytes=" + (DecimalString(a) + "-" + DecimalString(b)), fileSize) == Bounds(Int(a), Int(b))
  {
    StripBytesUnit(DecimalString(a) + "-" + DecimalString(b), fileSize);
    SingleRangeParts(a, b);
    ParseWhole(a);
    ParseWhole(b);
  }

  /** `bytes=<a>-<b>` is read as the interval `a..b`. */
  lemma SingleRangeBounds(a: nat, b: nat, fileSize: int)
    ensures RangeBounds("bytes=" + DecimalString(a) + "-" + DecimalString(b), fileSize) == Bounds(Int(a), Int(b))
  {
    var da, db := DecimalString(a), DecimalString(b);
    SingleRangeBoundsGrouped(a, b, fileSize);
    ConcatAssoc("bytes=", da, "-");
    ConcatAssoc("bytes=", da + "-", db);
  }

  lemma OpenEndedParts(a: nat)
    ensures Split(DecimalString(a) + "-", '-') == [DecimalString(a), ""]
  {
    DigitsFree(a, '-');
    SplitAfterPiece(DecimalString(a), '-', "");
    assert DecimalString(a) + "-" + "" == DecimalString(a) + "-";
  }

  /** `bytes=<a>-` is read as the interval from `a` to the last byte. */
  lemma OpenEndedBounds(a: nat, fileSize: int)
    ensures RangeBounds("bytes=" + DecimalString(a) + "-", fileSize) == Bounds(Int(a), Int(fileSize - 1))
  {
    var da := DecimalString(a);
    StripBytesUnit(da + "-", fileSize);
    OpenEndedParts(a);
    ParseWhole(a);
    assert "bytes=" + da + "-" == "bytes=" + (da + "-");
  }

  lemma MultiRangeParts(a: nat, b: nat, rest: string)
    ensures var parts := Split(DecimalString(a) + "-" + (DecimalString(b) + "," + rest), '-');
      |parts| >= 2 && parts[0] == DecimalString(a) && parts[1] == DecimalString(b) + ("," + Split(rest, '-')[0])
  {
    var da, db := DecimalString(a), DecimalString(b);
    var first := db + ",";
    DigitsFree(a, '-');
    SplitAfterPiece(da, '-', db + "," + rest);
    DigitsFree(b, '-');
    assert Free(first, '-');
    assert db + "," + rest == first + rest;
    SplitFirstPiece(first, '-', rest);
    assert first + Split(rest, '-')[0] == db + ("," + Split(rest, '-')[0]);
  }

  lemma MultiRangeBoundsGrouped(a: nat, b: nat, rest: string, fileSize: int)
    ensures RangeBounds("bytes=" + (DecimalString(a) + "-" + (DecimalString(b) + "," + rest)), fileSize) == Bounds(Int(a), Int(b))
  {
    StripBytesUnit(DecimalString(a) + "-" + (DecimalString(b) + "," + rest), fileSize);
    MultiRangeParts(a, b, rest);
    ParseWhole(a);
    ParseDecimal(b, "," + Split(rest, '-')[0]);
  }

  /**
   * A multi-range header `bytes=<a>-<b>,...` is read as its first range
   * alone: `parseInt` stops at the comma, and whatever follows is ignored.
   */
  lemma MultiRangeBounds(a: nat, b: nat, rest: string, fileSize: int)
    ensures RangeBounds("bytes=" + DecimalString(a) + "-" + DecimalString(b) + "," + rest, fileSize) == Bounds(Int(a), Int(b))
  {
    var da, db := DecimalString(a), DecimalString(b);
    MultiRangeBoundsGrouped(a, b, rest, fileSize);
    ConcatAssoc(db, ",", rest);
    ConcatAssoc(da + "-", db + ",", rest);
    ConcatAssoc(da + "-", db, ",");
    ConcatAssoc(da, "-", db + "," + rest);
    ConcatAssoc("bytes=", da, "-");
    ConcatAssoc("bytes=", da + "-", db);
    ConcatAssoc("bytes=", da + "-" + db, ",");
    ConcatAssoc("bytes=", da + "-" + db + ",", rest);
  }

  lemma SuffixRangeParts(b: nat)
    ensures Split("-" + DecimalString(b), '-') == ["", DecimalString(b)]
  {
    SplitAfterPiece("", '-', DecimalString(b));
    DigitsFree(b, '-');
    SplitWhole(DecimalString(b), '-');
    assert "" + "-" + DecimalString(b) == "-" + DecimalString(b);
  }

  /** `bytes=-<b>` (a suffix range) has a NaN start, which the 416 test lets through. */
  lemma SuffixRangeBounds(b: nat, fileSize: int)
    ensures RangeBounds("bytes=-" + DecimalString(b), fileSize) == Bounds(NaN, Int(b))
  {
    var db := DecimalString(b);
    StripBytesUnit("-" + db, fileSize);
    SuffixRangeParts(b);
    ParseWhole(b);
    assert "bytes=" + ("-" + db) == "bytes=-" + db;
  }

  /** A non-empty header is answered from the bounds read from it. */
  lemma SendFileWithRange(filePath: string, fileSize: nat, range: string, lookup: Option<string>, b: Bounds)
    requires range != [] && RangeBounds(range, fileSize) == b
    ensures SendFile(filePath, fileSize, Some(range), lookup) == RangeResponse(filePath, fileSize, b, ContentType(lookup))
  {
  }

  /** The headers of a 206 response for numeric bounds. */
  lemma PartialContentNumeric(filePath: string, fileSize: nat, a: nat, b: int, mimeType: string)
    ensures PartialContent(filePath, fileSize, Int(a), Int(b), mimeType)
      == Response(206,
           [ Header("Content-Range", "bytes " + DecimalString(a) + "-" + IntString(b) + "/" + DecimalString(fileSize)),
             Header("Accept-Ranges", "bytes"),
             Header("Content-Length", IntString(b - a + 1)),
             Header("Content-Type", mimeType) ],
           FileBytes(filePath, Int(a), Int(b)))
  {
  }

  // `Range: bytes=<a>-<b>` gives 416 with `Content-Range: bytes */<size>`
  // when either bound is at or past the end of the file, and otherwise sets
  // the 206 headers, with `Content-Length: <b-a+1>`, and asks for exactly
  // bytes `a..b`.  Nothing here excludes `a > b`.
  lemma SingleRange(filePath: string, fileSize: nat, a: nat, b: nat, lookup: Option<string>)
    ensures var r := SendFile(filePath, fileSize, Some("bytes=" + DecimalString(a) + "-" + DecimalString(b)), lookup);
      if a >= fileSize || b >= fileSize then
        r == NotSatisfiable(fileSize)
      else
        r == Response(206,
               [ Header("Content-Range", "bytes " + DecimalString(a) + "-" + DecimalString(b) + "/" + DecimalString(fileSize)),
                 Header("Accept-Ranges", "bytes"),
                 Header("Content-Length", IntString(b - a + 1)),
                 Header("Content-Type", ContentType(lookup)) ],
               FileBytes(filePath, Int(a), Int(b)))
  {
    var header := "bytes=" + DecimalString(a) + "-" + DecimalString(b);
    SingleRangeBounds(a, b, fileSize);
    SendFileWithRange(filePath, fileSize, header, lookup, Bounds(Int(a), Int(b)));
    if a < fileSize && b < fileSize {
      PartialContentNumeric(filePath, fileSize, a, b, ContentType(lookup));
    }
  }

  lemma FromStartBounds(fileSize: int)
    ensures RangeBounds("bytes=0-", fileSize) == Bounds(Int(0), Int(fileSize - 1))
  {
    OpenEndedBounds(0, fileSize);
    assert DecimalString(0) == "0";
    assert "bytes=" + DecimalString(0) + "-" == "bytes=0-";
  }

  /**
   * `Range: bytes=0-` on a non-empty file of size `S` gives 206 with
   * `Content-Range: bytes 0-<S-1>/<S>`, `Content-Length: <S>`, requesting
   * the whole file; on an empty file it gives 416.
   */
  lemma FromStartRange(filePath: string, fileSize: nat, lookup: Option<string>)
    ensures var r := SendFile(filePath, fileSize, Some("bytes=0-"), lookup);
      if fileSize == 0 then r == NotSatisfiable(0)
      else
        r == Response(206,
               [ Header("Content-Range", "bytes 0-" + DecimalString(fileSize - 1) + "/" + DecimalString(fileSize)),
                 Header("Accept-Ranges", "bytes"),
                 Header("Content-Length", DecimalString(fileSize)),
                 Header("Content-Type", ContentType(lookup)) ],
               FileBytes(filePath, Int(0), Int(fileSize - 1)))
  {
    FromStartBounds(fileSize);
    SendFileWithRange(filePath, fileSize, "bytes=0-", lookup, Bounds(Int(0), Int(fileSize - 1)));
    if fileSize > 0 {
      FromStartHeaders(filePath, fileSize, ContentType(lookup));
    }
  }

  lemma FromStartHeaders(filePath: string, fileSize: nat, mimeType: string)
    requires fileSize > 0
    ensures PartialContent(filePath, fileSize, Int(0), Int(fileSize - 1), mimeType)
      == Response(206,
           [ Header("Content-Range", "bytes 0-" + DecimalString(fileSize - 1) + "/" + DecimalString(fileSize)),
             Header("Accept-Ranges", "bytes"),
             Header("Content-Length", DecimalString(fileSize)),
             Header("Content-Type", mimeType) ],
           FileBytes(filePath, Int(0), Int(fileSize - 1)))
  {
    PartialContentNumeric(filePath, fileSize, 0, fileSize - 1, mimeType);
    assert DecimalString(0) == "0";
    assert "bytes " + "0" + "-" == "bytes 0-";
  }

  /**
   * `Range: bytes=-<b>` with `b` inside the file passes the 416 test with a
   * NaN start, and the 206 headers are set with `Content-Range:
   * bytes NaN-<b>/<size>` and `Content-Length: NaN`.
   */
  lemma SuffixRangeAccepted(filePath: string, fileSize: nat, b: nat, lookup: Option<string>)
    requires b < fileSize
    ensures var r := SendFile(filePath, fileSize, Some("bytes=-" + DecimalString(b)), lookup);
      r == Response(206,
             [ Header("Content-Range", "bytes NaN-" + DecimalString(b) + "/" + DecimalString(fileSize)),
               Header("Accept-Ranges", "bytes"),
               Header("Content-Length", "NaN"),
               Header("Content-Type", ContentType(lookup)) ],
             FileBytes(filePath, NaN, Int(b)))
  {
    SuffixRangeBounds(b, fileSize);
    SendFileWithRange(filePath, fileSize, "bytes=-" + DecimalString(b), lookup, Bounds(NaN, Int(b)));
    assert "bytes " + "NaN" + "-" == "bytes NaN-";
  }
}
