/**
 * `generateDirectoryHtml` and the `formatFileSize` guard: every directory
 * entry becomes one `<li>` holding a link to the entry and its size, and
 * the items are joined, in the order given, into the listing page.
 */
module DirectoryRenderer {
  import opened JsStrings
  import opened HtmlEscape
  import opened Http

  /** One element of `fileList`: the entry's name, whether it is a directory, its size. */
  datatype Entry = Entry(name: string, isDir: bool, size: nat)

  /**
   * The library functions the page uses, whose code is not part of this
   * model: `encodeURIComponent`, `decodeURI` (None when it throws a
   * `URIError`) and the floating-point part of `formatFileSize` for a
   * non-zero size.
   */
  datatype Formatters = Formatters(
    encode: string -> string,
    decodeUri: string -> Option<string>,
    scaled: nat -> string)

  /** The current path made to end in `/`. */
  function DirPrefix(currentPath: string): (p: string)
    ensures EndsWith(p, '/')
    ensures StartsWith(p, currentPath)
    ensures EndsWith(currentPath, '/') ==> p == currentPath
    ensures !EndsWith(currentPath, '/') ==> |p| == |currentPath| + 1
  {
    if EndsWith(currentPath, '/') then currentPath else currentPath + "/"
  }

  /** The `/` shown after a directory's name and appended to its link. */
  function DirMark(isDir: bool): string {
    if isDir then "/" else ""
  }

  /** The `href` of an entry whose encoded name is `encodedName`. */
  function Href(currentPath: string, encodedName: string, isDir: bool): string {
    DirPrefix(currentPath) + encodedName + DirMark(isDir)
  }

  /** `formatFileSize(bytes)`: `0 B` for an empty file, the scaled text otherwise. */
  function FormatFileSize(bytes: nat, scaled: nat -> string): (s: string)
    ensures bytes == 0 ==> s == "0 B"
    ensures bytes != 0 ==> s == scaled(bytes)
  {
    if bytes == 0 then "0 B" else scaled(bytes)
  }

  /** The text of the size column. */
  function SizeColumn(e: Entry, scaled: nat -> string): string {
    if e.isDir then "-" else FormatFileSize(e.size, scaled)
  }

  /** The text of the link: the escaped name and, for a directory, a `/`. */
  function Label(e: Entry): string {
    EscapeHtml(e.name) + DirMark(e.isDir)
  }

  /** The `<li>` element of one entry, exactly as the template writes it. */
  function RenderItem(currentPath: string, e: Entry, fm: Formatters): string {
    "<li>\n      <a href=\"" + Href(currentPath, fm.encode(e.name), e.isDir) + "\">"
    + Label(e) + "</a>\n      <span>" + SizeColumn(e, fm.scaled) + "</span>\n    </li>"
  }

  /** `files.map(...).join('')` */
  function Items(currentPath: string, files: seq<Entry>, fm: Formatters): string {
    if files == [] then "" else RenderItem(currentPath, files[0], fm) + Items(currentPath, files[1..], fm)
  }

  /**
   * `generateDirectoryHtml(currentPath, files)`: the parts of the page that
   * vary.  It fails (None) exactly when `decodeURI(currentPath)` throws.
   */
  function GenerateDirectoryHtml(currentPath: string, files: seq<Entry>, fm: Formatters): (r: Option<ListingPage>)
    ensures r.None? <==> fm.decodeUri(currentPath).None?
    ensures r.Some? ==> NoRawMarkup(r.value.title) && NoRawMarkup(r.value.heading)
  {
    match fm.decodeUri(currentPath)
    case None => None
    case Some(decoded) => Some(ListingPage(EscapeHtml(decoded), EscapeHtml(currentPath), Items(currentPath, files, fm)))
  }

  /**
   * The link starts with the current path when that already ends in `/`
   * and with the current path and a `/` otherwise; the encoded name and the
   * directory mark follow.
   */
  lemma HrefStartsWith(currentPath: string, encodedName: string, isDir: bool)
    ensures var h := Href(currentPath, encodedName, isDir);
      var p := if EndsWith(currentPath, '/') then currentPath else currentPath + "/";
      StartsWith(h, p) && h[|p|..] == encodedName + DirMark(isDir)
  {
    var p := DirPrefix(currentPath);
    ConcatAssoc(p, encodedName, DirMark(isDir));
    var h := p + (encodedName + DirMark(isDir));
    assert h[..|p|] == p && h[|p|..] == encodedName + DirMark(isDir);
  }

  /**
   * The link of a directory ends in `/`; so does the link of a file only
   * when its encoded name is empty or ends in `/` itself, which
   * `encodeURIComponent` never produces for a non-empty name.
   */
  lemma HrefEndsWithSlash(currentPath: string, encodedName: string, isDir: bool)
    ensures isDir ==> EndsWith(Href(currentPath, encodedName, isDir), '/')
    ensures encodedName != [] && !EndsWith(encodedName, '/') ==>
      (EndsWith(Href(currentPath, encodedName, isDir), '/') <==> isDir)
  {
    var h := Href(currentPath, encodedName, isDir);
    var p := DirPrefix(currentPath);
    if !isDir {
      assert h == p + encodedName + "";
      assert p + encodedName + "" == p + encodedName;
      if encodedName != [] {
        assert h[|h| - 1] == encodedName[|encodedName| - 1];
      }
    }
  }

  /** The size column is `-` exactly for directories (the scaled text of a file is never `-`). */
  lemma SizeDashIffDirectory(e: Entry, scaled: nat -> string)
    requires e.size != 0 ==> scaled(e.size) != "-"
    ensures SizeColumn(e, scaled) == "-" <==> e.isDir
  {
  }

  /** An empty file's size column reads `0 B`, whatever the scaling does. */
  lemma EmptyFileSize(name: string, scaled: nat -> string)
    ensures SizeColumn(Entry(name, false, 0), scaled) == "0 B"
  {
  }

  /**
   * The link text cannot close the anchor or open a tag, and it reads back
   * as the entry's name followed by the directory mark.
   */
  lemma LabelReadsBack(e: Entry)
    ensures NoRawMarkup(Label(e))
    ensures Unescape(Label(e)) == e.name + DirMark(e.isDir)
  {
    UnescapeEscapeThen(e.name, DirMark(e.isDir));
    if e.isDir {
      var s := "/";
      assert !StartsWith(s, "&amp;") && !StartsWith(s, "&lt;") && !StartsWith(s, "&gt;");
      assert !StartsWith(s, "&quot;") && !StartsWith(s, "&#39;");
      assert s[1..] == [];
    }
  }

  /** Joining distributes over concatenation of the entry lists. */
  lemma {:induction false} ItemsConcat(currentPath: string, a: seq<Entry>, b: seq<Entry>, fm: Formatters)
    ensures Items(currentPath, a + b, fm) == Items(currentPath, a, fm) + Items(currentPath, b, fm)
  {
    if a == [] {
      assert a + b == b;
    } else {
      assert (a + b)[1..] == a[1..] + b;
      ItemsConcat(currentPath, a[1..], b, fm);
      ConcatAssoc(RenderItem(currentPath, a[0], fm), Items(currentPath, a[1..], fm), Items(currentPath, b, fm));
    }
  }

  /** The `k`-th entry's item stands between the items of the entries before and after it. */
  lemma ItemAt(currentPath: string, files: seq<Entry>, k: nat, fm: Formatters)
    requires k < |files|
    ensures Items(currentPath, files, fm)
      == Items(currentPath, files[..k], fm) + RenderItem(currentPath, files[k], fm) + Items(currentPath, files[k + 1..], fm)
  {
    var before, here, after := files[..k], [files[k]], files[k + 1..];
    assert files == before + (here + after);
    ItemsConcat(currentPath, before, here + after, fm);
    assert (here + after)[1..] == after;
    ConcatAssoc(Items(currentPath, before, fm), RenderItem(currentPath, files[k], fm), Items(currentPath, after, fm));
  }

  /** The title reads back as the decoded path and the heading as the path itself. */
  lemma PageReadsBack(currentPath: string, files: seq<Entry>, fm: Formatters)
    requires fm.decodeUri(currentPath).Some?
    ensures var r := GenerateDirectoryHtml(currentPath, files, fm);
      r.Some? && Unescape(r.value.title) == fm.decodeUri(currentPath).value
      && Unescape(r.value.heading) == currentPath
      && r.value.items == Items(currentPath, files, fm)
  {
    UnescapeEscape(fm.decodeUri(currentPath).value);
    UnescapeEscape(currentPath);
  }
}
