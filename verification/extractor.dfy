/** The per-page extraction of the scrape handler: the `<img>` pass and the
    `[style*="background"]` pass over a parsed page, each element normalised
    against the page's validated URL. */
module Extractor {
  import opened Wrappers
  import opened Strings
  import opened UrlNormalizer
  import opened ExtensionFilter
  import opened BackgroundToken

  /** An element of the parsed page: its (lower-case) tag name and its
      attributes. */
  datatype Element = Element(tag: string, attributes: map<string, string>)

  /** The elements of a page in document order, as the HTML parser's
      selector matches enumerate them. */
  type Document = seq<Element>

  /** A record of the response's `images` list. */
  datatype Image = Image(url: string, alt: string, width: string, height: string)

  const BackgroundAlt := "Background Image"
  const Unknown := "unknown"

  /** `$(element).attr(name)`: `None` stands for `undefined`. */
  function Attr(e: Element, name: string): (r: Option<string>)
    ensures r.Some? <==> name in e.attributes
  {
    if name in e.attributes then Some(e.attributes[name]) else None
  }

  /** JavaScript's `value || fallback` on an optional string: an absent or
      empty value is falsy. */
  function OrElse(value: Option<string>, fallback: string): (r: string)
    ensures value.Some? && value.value != "" ==> r == value.value
    ensures value.None? || value.value == "" ==> r == fallback
  {
    if value.Some? && value.value != "" then value.value else fallback
  }

  /** `attr('src') || attr('data-src')`, kept only when truthy. */
  function ImageReference(e: Element): (r: Option<string>)
    ensures r.Some? ==> r.value != ""
    ensures r.Some? ==> r == Attr(e, "src") || (OrElse(Attr(e, "src"), "") == "" && r == Attr(e, "data-src"))
    ensures r.None? <==> OrElse(Attr(e, "src"), "") == "" && OrElse(Attr(e, "data-src"), "") == ""
  {
    var src := OrElse(Attr(e, "src"), "");
    if src != "" then Some(src)
    else
      var dataSrc := OrElse(Attr(e, "data-src"), "");
      if dataSrc != "" then Some(dataSrc) else None
  }

  /** What one element contributes to the `<img>` pass. */
  function ImgRecord(e: Element, base: string, resolve: Resolver): (r: Option<Image>)
    ensures r.Some? ==> e.tag == "img" && ImageReference(e).Some?
    ensures r.Some? ==> Normalize(ImageReference(e).value, base, resolve) == Some(r.value.url)
    ensures r.Some? ==> HasImageExtension(r.value.url)
    ensures r.Some? ==> r.value.alt == OrElse(Attr(e, "alt"), "")
    ensures r.Some? ==> r.value.width == OrElse(Attr(e, "width"), Unknown)
    ensures r.Some? ==> r.value.height == OrElse(Attr(e, "height"), Unknown)
  {
    if e.tag != "img" then None
    else match ImageReference(e)
      case None => None
      case Some(reference) =>
        match Normalize(reference, base, resolve)
        case None => None
        case Some(u) =>
          if HasImageExtension(u) then
            Some(Image(u, OrElse(Attr(e, "alt"), ""), OrElse(Attr(e, "width"), Unknown),
                       OrElse(Attr(e, "height"), Unknown)))
          else None
  }

  /** The selector `[style*="background"]`. A style it selects is long enough
      to hold the word, so the `if (style)` test that follows always passes. */
  predicate HasBackgroundStyle(e: Element): (r: bool)
    ensures r ==> "style" in e.attributes && |e.attributes["style"]| >= |"background"|
  {
    "style" in e.attributes && Contains(e.attributes["style"], "background")
  }

  /** What one element contributes to the background pass. Only a failed
      normalisation (or an empty URL, which is falsy) drops the token: no
      extension filter applies here. */
  function BackgroundRecord(e: Element, base: string, resolve: Resolver): (r: Option<Image>)
    ensures r.Some? ==> HasBackgroundStyle(e)
    ensures r.Some? ==> FirstUrlToken(e.attributes["style"]).Some?
    ensures r.Some? ==> Normalize(FirstUrlToken(e.attributes["style"]).value, base, resolve) == Some(r.value.url)
    ensures r.Some? ==> r.value.url != ""
    ensures r.Some? ==> r.value.alt == BackgroundAlt && r.value.width == Unknown && r.value.height == Unknown
  {
    if !HasBackgroundStyle(e) then None
    else match FirstUrlToken(e.attributes["style"])
      case None => None
      case Some(token) =>
        match Normalize(token, base, resolve)
        case Some(u) => if u != "" then Some(Image(u, BackgroundAlt, Unknown, Unknown)) else None
        case None => None
  }

  /** One pass of `$(selector).each(...)`: the contributions of the elements,
      in document order. */
  function Harvest(doc: Document, pick: Element -> Option<Image>): (r: seq<Image>)
    ensures |r| <= |doc|
    decreases |doc|
  {
    if doc == [] then []
    else
      var head := match pick(doc[0]) case Some(x) => [x] case None => [];
      head + Harvest(doc[1..], pick)
  }

  /** Every record of a pass has a non-empty URL when the picker only ever
      produces such records. */
  lemma {:induction false} HarvestUrlsNonEmpty(doc: Document, pick: Element -> Option<Image>)
    requires forall e :: pick(e).Some? ==> pick(e).value.url != ""
    ensures forall k :: 0 <= k < |Harvest(doc, pick)| ==> Harvest(doc, pick)[k].url != ""
    decreases |doc|
  {
    if doc != [] {
      HarvestUrlsNonEmpty(doc[1..], pick);
    }
  }

  /** The `images` list of one page: every `<img>` record, then every
      background record. An element adds at most one record to each pass, and
      no record has an empty URL, because both passes test `normalizedUrl`. */
  function Extract(doc: Document, base: string, resolve: Resolver): (r: seq<Image>)
    ensures |r| <= 2 * |doc|
    ensures forall k :: 0 <= k < |r| ==> r[k].url != ""
  {
    var img := e => ImgRecord(e, base, resolve);
    var bg := e => BackgroundRecord(e, base, resolve);
    HarvestUrlsNonEmpty(doc, img);
    HarvestUrlsNonEmpty(doc, bg);
    Harvest(doc, img) + Harvest(doc, bg)
  }

  /** A pass over two stretches of a page is the pass over the first followed by
      the pass over the second: records keep document order. */
  lemma {:induction false} HarvestAppend(a: Document, b: Document, pick: Element -> Option<Image>)
    ensures Harvest(a + b, pick) == Harvest(a, pick) + Harvest(b, pick)
    decreases |a|
  {
    if a == [] {
      assert a + b == b;
    } else {
      var ab := a + b;
      assert ab[0] == a[0];
      assert ab[1..] == a[1..] + b;
      HarvestAppend(a[1..], b, pick);
    }
  }

  /** A record is in a pass exactly when some element of the page produced it. */
  lemma {:induction false} HarvestMember(doc: Document, pick: Element -> Option<Image>, x: Image)
    ensures x in Harvest(doc, pick) <==> exists i :: 0 <= i < |doc| && pick(doc[i]) == Some(x)
    decreases |doc|
  {
    if doc != [] {
      HarvestMember(doc[1..], pick, x);
      if exists i :: 0 <= i < |doc| && pick(doc[i]) == Some(x) {
        var i :| 0 <= i < |doc| && pick(doc[i]) == Some(x);
        if i > 0 {
          assert doc[1..][i - 1] == doc[i];
        }
      }
    }
  }

  /** An element that contributes nothing leaves the pass unchanged wherever it
      stands, as an `<img>` with neither `src` nor `data-src` does. */
  lemma SilentElementChangesNothing(a: Document, e: Element, b: Document, pick: Element -> Option<Image>)
    requires pick(e).None?
    ensures Harvest(a + [e] + b, pick) == Harvest(a + b, pick)
  {
    HarvestAppend(a + [e], b, pick);
    HarvestAppend(a, [e], pick);
    HarvestAppend(a, b, pick);
  }

  /** A record is on a page's list exactly when one of its elements produced
      it in one of the two passes; `ImgRecord` and `BackgroundRecord` say what
      such a record holds. */
  lemma ExtractedImageProvenance(doc: Document, base: string, resolve: Resolver, x: Image)
    ensures x in Extract(doc, base, resolve) <==>
              exists i :: 0 <= i < |doc| &&
                (ImgRecord(doc[i], base, resolve) == Some(x) || BackgroundRecord(doc[i], base, resolve) == Some(x))
  {
    var img := e => ImgRecord(e, base, resolve);
    var bg := e => BackgroundRecord(e, base, resolve);
    HarvestMember(doc, img, x);
    HarvestMember(doc, bg, x);
  }

  /** Every `<img>` record precedes every background record, and both passes
      keep document order when the page is split anywhere. */
  lemma ExtractOrder(a: Document, b: Document, base: string, resolve: Resolver)
    ensures var img := e => ImgRecord(e, base, resolve);
            var bg := e => BackgroundRecord(e, base, resolve);
            Extract(a + b, base, resolve) ==
              Harvest(a, img) + Harvest(b, img) + Harvest(a, bg) + Harvest(b, bg)
  {
    var img := e => ImgRecord(e, base, resolve);
    var bg := e => BackgroundRecord(e, base, resolve);
    HarvestAppend(a, b, img);
    HarvestAppend(a, b, bg);
  }

  /** A background token is kept whenever it normalises to a non-empty URL,
      whether or not that URL carries an image extension. */
  lemma BackgroundSkipsExtensionFilter(e: Element, base: string, resolve: Resolver, u: string)
    requires HasBackgroundStyle(e) && FirstUrlToken(e.attributes["style"]).Some?
    requires Normalize(FirstUrlToken(e.attributes["style"]).value, base, resolve) == Some(u) && u != ""
    ensures BackgroundRecord(e, base, resolve) == Some(Image(u, BackgroundAlt, Unknown, Unknown))
  {
  }

  /** The same URL met through an `<img>` is dropped unless it has an image
      extension. */
  lemma ImgNeedsExtension(e: Element, base: string, resolve: Resolver, u: string)
    requires e.tag == "img" && ImageReference(e).Some?
    requires Normalize(ImageReference(e).value, base, resolve) == Some(u)
    ensures ImgRecord(e, base, resolve).Some? <==> HasImageExtension(u)
  {
  }

  /** A one-element page yields the element's `<img>` record, if any, then
      its background record, if any. */
  lemma SingleElementPage(e: Element, base: string, resolve: Resolver)
    ensures Extract([e], base, resolve) ==
              (match ImgRecord(e, base, resolve) case Some(x) => [x] case None => []) +
              (match BackgroundRecord(e, base, resolve) case Some(x) => [x] case None => [])
  {
    assert [e][1..] == [];
  }

  /** `<img src="/a.png" alt="cat">` on `https://s.com/` gives one record with
      the resolved URL, the alt text, and unknown dimensions. */
  lemma ImgPageExample(resolve: Resolver)
    requires resolve("/a.png", "https://s.com/") == Some("https://s.com/a.png")
    ensures Extract([Element("img", map["src" := "/a.png", "alt" := "cat"])], "https://s.com/", resolve)
            == [Image("https://s.com/a.png", "cat", Unknown, Unknown)]
  {
    var e := Element("img", map["src" := "/a.png", "alt" := "cat"]);
    var u := "https://s.com/a.png";
    var png := ImageExtensions[3];
    assert png == "png" && png in ImageExtensions;
    assert u[15] == '.' && MatchesIgnoringCaseAt(u, 16, png);
    assert ExtensionAt(u, 15);
    PathIsRelative("/a.png");
    assert ImageReference(e) == Some("/a.png");
    assert ImgRecord(e, "https://s.com/", resolve) == Some(Image(u, "cat", Unknown, Unknown));
    assert !HasBackgroundStyle(e);
    SingleElementPage(e, "https://s.com/", resolve);
  }

  /** `<div style="background-image: url('/bg.jpg')">` on `https://s.com/` gives
      one background record with the resolved URL. */
  lemma BackgroundPageExample(style: string, resolve: Resolver)
    requires style == "background-image: url('/bg.jpg')"
    requires resolve("/bg.jpg", "https://s.com/") == Some("https://s.com/bg.jpg")
    ensures Extract([Element("div", map["style" := style])], "https://s.com/", resolve)
            == [Image("https://s.com/bg.jpg", BackgroundAlt, Unknown, Unknown)]
  {
    var e := Element("div", map["style" := style]);
    BannerStyleToken(style);
    assert OccursAt(style, "background", 0);
    PathIsRelative("/bg.jpg");
    BackgroundOfStyle(e, style, "/bg.jpg", "https://s.com/", resolve);
    SingleElementPage(e, "https://s.com/", resolve);
  }

  /** The background record of an element whose style holds the word and a
      token. */
  lemma BackgroundOfStyle(e: Element, style: string, token: string, base: string, resolve: Resolver)
    requires e.tag != "img" && e.attributes == map["style" := style]
    requires OccursAt(style, "background", 0)
    requires FirstUrlToken(style) == Some(token)
    requires !IsHttpAbsolute(token) && !IsProtocolRelative(token)
    requires resolve(token, base).Some? && resolve(token, base).value != ""
    ensures ImgRecord(e, base, resolve).None?
    ensures BackgroundRecord(e, base, resolve) ==
              Some(Image(resolve(token, base).value, BackgroundAlt, Unknown, Unknown))
  {
  }

  /** A reference that starts with a single `/` is neither absolute nor
      protocol-relative. */
  lemma PathIsRelative(t: string)
    requires |t| >= 2 && t[0] == '/' && t[1] != '/'
    ensures !IsHttpAbsolute(t) && !IsProtocolRelative(t)
  {
    assert t[0] != "http://"[0];
    assert t[1] != "//"[1];
  }
}
