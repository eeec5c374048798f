/** The image-extension filter applied to `<img>` URLs: the regular expression
    `/\.(jpeg|jpg|gif|png|webp|svg)/i`, searched for anywhere in the string. */
module ExtensionFilter {
  import opened Strings

  /** The recognised extensions, in the order of the alternation. */
  const ImageExtensions: seq<string> := ["jpeg", "jpg", "gif", "png", "webp", "svg"]

  /** A dot at `i` followed, ignoring ASCII case, by a recognised extension.
      Nothing is required after the extension, so `.pngs` and `.svg?x` match. */
  predicate ExtensionAt(s: string, i: int) {
    0 <= i < |s| && s[i] == '.' &&
    exists e | e in ImageExtensions :: MatchesIgnoringCaseAt(s, i + 1, e)
  }

  /** `s.match(/\.(jpeg|jpg|gif|png|webp|svg)/i)` is non-null. A string that
      passes holds a dot followed by at least three more characters. */
  predicate HasImageExtension(s: string): (r: bool)
    ensures r ==> exists i :: 0 <= i && i + 4 <= |s| && s[i] == '.'
  {
    exists i | 0 <= i < |s| :: ExtensionAt(s, i)
  }

  /** One alternative of the regular expression tried at position `j`. */
  method MatchWordAt(s: string, j: nat, word: string) returns (ok: bool)
    ensures ok <==> MatchesIgnoringCaseAt(s, j, word)
  {
    if j + |word| > |s| {
      return false;
    }
    var k := 0;
    while k < |word|
      invariant 0 <= k <= |word|
      invariant forall m :: 0 <= m < k ==> AsciiLower(s[j + m]) == word[m]
    {
      if AsciiLower(s[j + k]) != word[k] {
        return false;
      }
      k := k + 1;
    }
    return true;
  }

  /** The left-to-right search the regular-expression engine performs: every
      start position, every alternative, until one matches. */
  method SearchImageExtension(s: string) returns (found: bool)
    ensures found <==> HasImageExtension(s)
  {
    var i := 0;
    while i < |s|
      invariant 0 <= i <= |s|
      invariant forall p :: 0 <= p < i ==> !ExtensionAt(s, p)
    {
      if s[i] == '.' {
        var a := 0;
        while a < |ImageExtensions|
          invariant 0 <= a <= |ImageExtensions|
          invariant forall b :: 0 <= b < a ==> !MatchesIgnoringCaseAt(s, i + 1, ImageExtensions[b])
        {
          var ok := MatchWordAt(s, i + 1, ImageExtensions[a]);
          if ok {
            assert ImageExtensions[a] in ImageExtensions;
            assert ExtensionAt(s, i);
            return true;
          }
          a := a + 1;
        }
      }
      i := i + 1;
    }
    return false;
  }

  /** The filter is a loose substring test: text around a matching URL, such
      as a query string, never makes it fail. */
  lemma {:induction false} FilterIgnoresSurroundings(s: string, before: string, after: string)
    requires HasImageExtension(s)
    ensures HasImageExtension(before + s + after)
  {
    var i :| 0 <= i < |s| && ExtensionAt(s, i);
    var e :| e in ImageExtensions && MatchesIgnoringCaseAt(s, i + 1, e);
    var t := before + s + after;
    var j := |before| + i;
    assert t[j] == s[i];
    forall k | 0 <= k < |e|
      ensures AsciiLower(t[j + 1 + k]) == e[k]
    {
      assert t[j + 1 + k] == s[i + 1 + k];
    }
    assert MatchesIgnoringCaseAt(t, j + 1, e);
    assert ExtensionAt(t, j);
  }

  /** The filter ignores ASCII case: folding the URL to lower case neither
      admits nor rejects anything. */
  lemma {:induction false} FilterIgnoresCase(s: string)
    ensures HasImageExtension(LowerAll(s)) <==> HasImageExtension(s)
  {
    var t := LowerAll(s);
    if HasImageExtension(s) {
      var i :| 0 <= i < |s| && ExtensionAt(s, i);
      var e :| e in ImageExtensions && MatchesIgnoringCaseAt(s, i + 1, e);
      MatchesIgnoringCaseOfLower(s, i + 1, e);
      assert ExtensionAt(t, i);
    }
    if HasImageExtension(t) {
      var i :| 0 <= i < |t| && ExtensionAt(t, i);
      var e :| e in ImageExtensions && MatchesIgnoringCaseAt(t, i + 1, e);
      MatchesIgnoringCaseOfLower(s, i + 1, e);
      assert ExtensionAt(s, i);
    }
  }

  /** An upper-case extension is accepted. */
  lemma UpperCasePngAccepted()
    ensures HasImageExtension("https://site.com/photo.PNG")
  {
    var s := "https://site.com/photo.PNG";
    var png := ImageExtensions[3];
    assert png == "png" && png in ImageExtensions;
    assert s[22] == '.';
    assert MatchesIgnoringCaseAt(s, 23, png);
    assert ExtensionAt(s, 22);
  }

  /** A dot followed by a character that starts none of the extensions is not
      a match. */
  lemma NoExtensionAfter(s: string, i: int)
    requires 0 <= i && i + 1 < |s| && AsciiLower(s[i + 1]) !in "jgpws"
    ensures !ExtensionAt(s, i)
  {
    forall e | e in ImageExtensions
      ensures !MatchesIgnoringCaseAt(s, i + 1, e)
    {
      assert e[0] in "jgpws";
    }
  }

  /** An extension outside the list is rejected. */
  lemma BmpRejected(s: string)
    requires s == "https://site.com/photo.bmp"
    ensures !HasImageExtension(s)
  {
    var head, mid, tail := "https://site", "com/photo", "bmp";
    assert s == head + "." + mid + "." + tail;
    assert '.' !in head && '.' !in mid && '.' !in tail;
    NoExtensionAfter(s, 12);
    NoExtensionAfter(s, 22);
    forall i | 0 <= i < |s| && i != 12 && i != 22
      ensures s[i] != '.'
    {
      if i < 12 {
        assert s[i] == head[i];
      } else if i < 22 {
        assert s[i] == mid[i - 13];
      } else {
        assert s[i] == tail[i - 23];
      }
    }
  }
}
