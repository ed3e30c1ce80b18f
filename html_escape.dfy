/**
 * `escapeHtml`: every occurrence of the five HTML-special characters is
 * replaced by its character reference, everything else is copied.
 */
module HtmlEscape {
  import opened JsStrings

  /** The characters the replacement's regular expression `[&<>"']` matches. */
  predicate IsSpecial(c: char) {
    c == '&' || c == '<' || c == '>' || c == '"' || c == '\''
  }

  /** The characters that may not appear raw in escaped text. */
  predicate IsMarkup(c: char) {
    c == '<' || c == '>' || c == '"' || c == '\''
  }

  /** The replacement callback: one character to its reference or to itself. */
  function EscapeChar(c: char): (r: string)
    ensures |r| > 0 && (r[0] == '&' <==> IsSpecial(c))
  {
    match c
    case '&' => "&amp;"
    case '<' => "&lt;"
    case '>' => "&gt;"
    case '"' => "&quot;"
    case '\'' => "&#39;"
    case _ => [c]
  }

  /** No character of `s` is raw markup. */
  predicate NoRawMarkup(s: string) {
    forall i :: 0 <= i < |s| ==> !IsMarkup(s[i])
  }

  /** `escapeHtml(unsafe)` */
  function EscapeHtml(unsafe: string): (r: string)
    ensures NoRawMarkup(r)
    ensures |r| >= |unsafe|
  {
    if unsafe == [] then [] else EscapeChar(unsafe[0]) + EscapeHtml(unsafe[1..])
  }

  /** One of the five references starts at position `i` of `s`. */
  predicate EntityAt(s: string, i: nat)
    requires i <= |s|
  {
    var t := s[i..];
    StartsWith(t, "&amp;") || StartsWith(t, "&lt;") || StartsWith(t, "&gt;")
    || StartsWith(t, "&quot;") || StartsWith(t, "&#39;")
  }

  /** Every `&` of `s` begins a reference. */
  predicate AmpersandsAreEntities(s: string) {
    forall i :: 0 <= i < |s| && s[i] == '&' ==> EntityAt(s, i)
  }

  /** Escaping distributes over concatenation. */
  lemma {:induction false} EscapeConcat(a: string, b: string)
    ensures EscapeHtml(a + b) == EscapeHtml(a) + EscapeHtml(b)
  {
    if a == [] {
      assert a + b == b;
    } else {
      assert (a + b)[1..] == a[1..] + b;
      EscapeConcat(a[1..], b);
    }
  }

  /** An ampersand prepended to `s` stays a reference when `s` is a reference's tail. */
  lemma EntityShift(prefix: string, s: string, i: nat)
    requires i <= |s| && EntityAt(s, i)
    ensures EntityAt(prefix + s, |prefix| + i)
  {
    assert (prefix + s)[|prefix| + i..] == s[i..];
  }

  /** Every `&` in the output of `escapeHtml` begins one of the five references. */
  lemma {:induction false} EscapedAmpersands(unsafe: string)
    ensures AmpersandsAreEntities(EscapeHtml(unsafe))
  {
    if unsafe != [] {
      var head := EscapeChar(unsafe[0]);
      var tail := EscapeHtml(unsafe[1..]);
      EscapedAmpersands(unsafe[1..]);
      var r := EscapeHtml(unsafe);
      assert r == head + tail;
      forall i | 0 <= i < |r| && r[i] == '&' ensures EntityAt(r, i) {
        if i < |head| {
          assert i == 0 && r[0..] == head + tail;
          assert head[0] == '&' && IsSpecial(unsafe[0]);
          assert r[..|head|] == head;
        } else {
          assert tail[i - |head|] == '&';
          EntityShift(head, tail, i - |head|);
        }
      }
    }
  }

  /** The reading of escaped text back to the text: each reference to its character. */
  function Unescape(s: string): (r: string)
    ensures |r| <= |s|
  {
    if s == [] then []
    else if StartsWith(s, "&amp;") then "&" + Unescape(s[5..])
    else if StartsWith(s, "&lt;") then "<" + Unescape(s[4..])
    else if StartsWith(s, "&gt;") then ">" + Unescape(s[4..])
    else if StartsWith(s, "&quot;") then "\"" + Unescape(s[6..])
    else if StartsWith(s, "&#39;") then "'" + Unescape(s[5..])
    else [s[0]] + Unescape(s[1..])
  }

  /** A text that differs from `p` at position `k` does not start with `p`. */
  lemma DiffersAt(s: string, p: string, k: nat)
    requires k < |p| && k < |s| && s[k] != p[k]
    ensures !StartsWith(s, p)
  {
  }

  /** The first decoding step on a reference followed by `tail`. */
  lemma UnescapeEntity(e: string, c: char, tail: string)
    requires e == EscapeChar(c) && IsSpecial(c)
    ensures Unescape(e + tail) == [c] + Unescape(tail)
  {
    var r := e + tail;
    assert r[..|e|] == e && r[|e|..] == tail;
    assert StartsWith(r, e);
    if c != '&' {
      DiffersAt(r, "&amp;", 1);
      if c != '<' {
        DiffersAt(r, "&lt;", 1);
        if c != '>' {
          DiffersAt(r, "&gt;", 1);
          if c != '"' {
            DiffersAt(r, "&quot;", 1);
          }
        }
      }
    }
  }

  /** Unescaping one escaped character in front of any text reads that character back. */
  lemma UnescapeHead(c: char, tail: string)
    ensures Unescape(EscapeChar(c) + tail) == [c] + Unescape(tail)
  {
    if IsSpecial(c) {
      UnescapeEntity(EscapeChar(c), c, tail);
    } else {
      var r := EscapeChar(c) + tail;
      assert r[0] == c && r[1..] == tail;
      DiffersAt(r, "&amp;", 0);
      DiffersAt(r, "&lt;", 0);
      DiffersAt(r, "&gt;", 0);
      DiffersAt(r, "&quot;", 0);
      DiffersAt(r, "&#39;", 0);
    }
  }

  /** Unescaping escaped text followed by anything reads the text back, then decodes what follows. */
  lemma {:induction false} UnescapeEscapeThen(unsafe: string, tail: string)
    ensures Unescape(EscapeHtml(unsafe) + tail) == unsafe + Unescape(tail)
  {
    if unsafe == [] {
      assert [] + tail == tail;
    } else {
      var rest := EscapeHtml(unsafe[1..]);
      UnescapeEscapeThen(unsafe[1..], tail);
      ConcatAssoc(EscapeChar(unsafe[0]), rest, tail);
      UnescapeHead(unsafe[0], rest + tail);
      ConcatAssoc([unsafe[0]], unsafe[1..], Unescape(tail));
      assert [unsafe[0]] + unsafe[1..] == unsafe;
    }
  }

  /** Unescaping the escaped text gives back the original: nothing is lost or reordered. */
  lemma UnescapeEscape(unsafe: string)
    ensures Unescape(EscapeHtml(unsafe)) == unsafe
  {
    UnescapeEscapeThen(unsafe, []);
    assert EscapeHtml(unsafe) + [] == EscapeHtml(unsafe);
    assert unsafe + [] == unsafe;
  }

  /** Different texts stay different once escaped. */
  lemma EscapeInjective(a: string, b: string)
    requires EscapeHtml(a) == EscapeHtml(b)
    ensures a == b
  {
    UnescapeEscape(a);
    UnescapeEscape(b);
  }

  /** Text without special characters is left exactly as it is. */
  lemma {:induction false} EscapePlain(s: string)
    requires forall i :: 0 <= i < |s| ==> !IsSpecial(s[i])
    ensures EscapeHtml(s) == s
  {
    if s != [] {
      EscapePlain(s[1..]);
      assert [s[0]] + s[1..] == s;
    }
  }
}
