/**
 * `DilbertComic`: the comic record, its two constructors (from a stored row
 * and from fields), its `<img>` tag, and the draft that
 * `Dilbert.find_comic_by_pubdate` builds from a day's archive page.
 */
module Comics {
  import opened Wrappers
  import opened Calendar
  import opened Text
  import opened Markup

  /** Why a step of a sync run fails (the exception the scraper would raise). */
  datatype Error =
    | Transport(url: string)                 // fetch_url: URLError / HTTPError / FTP handle
    | NoComicImage                           // xpath(...)[0] on an empty match list
    | MissingAlt                             // re.sub on an absent alt attribute
    | DownloadFailed(imageUrl: Option<string>) // download_comic
    | DuplicateFilename(filename: string)    // sqlite3.IntegrityError on the UNIQUE column
    | DateOverflow                           // OverflowError from date arithmetic

  /** One element of a parsed page, with the attributes the scraper reads. */
  datatype Element = Element(
    tagName: string,
    classAttr: Option<string>,
    src: Option<string>,
    alt: Option<string>,
    width: Option<string>,
    height: Option<string>)

  /** A `DilbertComic`: a draft has no id and no `updated`, a stored comic has both. */
  datatype Comic = Comic(
    id: Option<int>,
    pubdate: Day,
    url: Option<string>,
    title: Option<string>,
    filename: string,
    width: Option<string>,
    height: Option<string>,
    updated: Option<int>)

  /** A row of the `dilbert` table: `id` and `updated` are filled in by the store. */
  datatype Row = Row(
    id: int,
    pubdate: Day,
    url: Option<string>,
    title: Option<string>,
    filename: string,
    width: Option<string>,
    height: Option<string>,
    updated: int)

  // ---------------------------------------------------------------------
  // Constructors

  /** The Sunday fix: an empty title becomes "-"; anything else, None included, stays. */
  function NormaliseTitle(title: Option<string>): (r: Option<string>)
    ensures r != Some("")
    ensures title != Some("") ==> r == title
    ensures title == Some("") ==> r == Some("-")
  {
    if title == Some("") then Some("-") else title
  }

  /** `DilbertComic(comic_id=..., pubdate=..., ...)`: the fields as given, title normalised. */
  function FromFields(id: Option<int>, pubdate: Day, url: Option<string>, filename: string,
                      title: Option<string>, updated: Option<int>,
                      width: Option<string>, height: Option<string>): (c: Comic)
    ensures c.title != Some("")
    ensures title != Some("") ==> c.title == title
    ensures title == Some("") ==> c.title == Some("-")
    ensures c.id == id && c.pubdate == pubdate && c.url == url && c.filename == filename
    ensures c.updated == updated && c.width == width && c.height == height
  {
    Comic(id, pubdate, url, NormaliseTitle(title), filename, width, height, updated)
  }

  /** `DilbertComic(row=row)`: every column copied, title normalised. */
  function FromRow(row: Row): (c: Comic)
    ensures c.title != Some("")
    ensures row.title != Some("") ==> c.title == row.title
    ensures row.title == Some("") ==> c.title == Some("-")
    ensures c.id == Some(row.id) && c.updated == Some(row.updated)
    ensures c.pubdate == row.pubdate && c.filename == row.filename && c.url == row.url
    ensures c.width == row.width && c.height == row.height
  {
    FromFields(Some(row.id), row.pubdate, row.url, row.filename, row.title,
               Some(row.updated), row.width, row.height)
  }

  /** The row `write_comic_to_db` inserts, with the id and timestamp the store assigns. */
  function ToRow(c: Comic, id: int, now: int): Row {
    Row(id, c.pubdate, c.url, c.title, c.filename, c.width, c.height, now)
  }

  /** Reading back a stored comic gives the comic, now carrying its id and timestamp. */
  lemma RowRoundTrip(c: Comic, id: int, now: int)
    requires c.title != Some("")
    ensures FromRow(ToRow(c, id, now)) == c.(id := Some(id), updated := Some(now))
  {
  }

  /** Normalising twice is normalising once. */
  lemma NormaliseIdempotent(title: Option<string>)
    ensures NormaliseTitle(NormaliseTitle(title)) == NormaliseTitle(title)
  {
  }

  // ---------------------------------------------------------------------
  // DilbertComic.tag

  /** Python truthiness of an attribute value: present and not empty. */
  predicate Truthy(v: Option<string>) {
    v.Some? && v.value != ""
  }

  function Attribute(name: string, v: Option<string>): string {
    if Truthy(v) then name + "=\"" + v.value + "\"" else ""
  }

  /** The format string '<img src="{}" alt="{}" {} {}/>' filled in. */
  function ImgTag(src: string, alt: string, width: Option<string>, height: Option<string>): string {
    "<img src=\"" + (src + ("\" alt=\"" + (alt + ("\" " +
      (Attribute("width", width) + (" " + (Attribute("height", height) + "/>")))))))
  }

  /** `comic.tag(baseurl)`: the `<img>` element a feed entry carries. */
  function Tag(c: Comic, baseurl: string): string {
    ImgTag(baseurl + "/" + c.filename, "comic for " + IsoDate(c.pubdate), c.width, c.height)
  }

  /** What a reader of the tag recovers: the two required and the two optional attributes. */
  datatype TagParts = TagParts(src: string, alt: string, width: Option<string>, height: Option<string>)

  /** `s` without the literal prefix `lit`, if it starts with it. */
  function Expect(lit: string, s: string): (r: Option<string>)
    ensures r.Some? ==> |r.value| <= |s|
  {
    if IsPrefix(lit, s) then Some(s[|lit|..]) else None
  }

  /** The text up to the next double quote, and what follows that quote. */
  function ReadQuoted(s: string): (r: Option<(string, string)>)
    ensures r.Some? ==> |r.value.1| < |s|
  {
    if s == [] then None
    else if s[0] == '"' then Some(([], s[1..]))
    else
      match ReadQuoted(s[1..])
      case None => None
      case Some(p) => Some(([s[0]] + p.0, p.1))
  }

  /** An optional `name="value"` at the start of `s`. */
  function ReadAttribute(name: string, s: string): (r: Option<(Option<string>, string)>)
    ensures r.Some? ==> |r.value.1| <= |s|
  {
    match Expect(name + "=\"", s)
    case None => Some((None, s))
    case Some(rest) =>
      var p :- ReadQuoted(rest);
      Some((Some(p.0), p.1))
  }

  /** Reads the optional width and height attributes and the closing "/>". */
  function ParseSizes(s: string): Option<(Option<string>, Option<string>)> {
    var width :- ReadAttribute("width", s);
    var d :- Expect(" ", width.1);
    var height :- ReadAttribute("height", d);
    if height.1 == "/>" then Some((width.0, height.0)) else None
  }

  /** Reads back the attributes of a tag laid out as `Tag` lays it out. */
  function ParseTag(s: string): Option<TagParts> {
    var a :- Expect("<img src=\"", s);
    var src :- ReadQuoted(a);
    var b :- Expect(" alt=\"", src.1);
    var alt :- ReadQuoted(b);
    var c :- Expect(" ", alt.1);
    var sizes :- ParseSizes(c);
    Some(TagParts(src.0, alt.0, sizes.0, sizes.1))
  }

  lemma ExpectPrefix(lit: string, rest: string)
    ensures Expect(lit, lit + rest) == Some(rest)
  {
    assert (lit + rest)[..|lit|] == lit;
    assert (lit + rest)[|lit|..] == rest;
  }

  lemma {:induction false} ReadQuotedValue(v: string, rest: string)
    requires '"' !in v
    ensures ReadQuoted(v + ("\"" + rest)) == Some((v, rest))
  {
    if v == [] {
      assert v + ("\"" + rest) == "\"" + rest;
    } else {
      var s := v + ("\"" + rest);
      assert s[0] == v[0] != '"';
      assert s[1..] == v[1..] + ("\"" + rest);
      ReadQuotedValue(v[1..], rest);
      assert [v[0]] + v[1..] == v;
    }
  }

  lemma ReadAttributeValue(name: string, v: Option<string>, rest: string)
    requires name != [] && name[0] != ' ' && name[0] != '/'
    requires rest != [] && (rest[0] == ' ' || rest[0] == '/')
    requires v.Some? ==> '"' !in v.value
    ensures ReadAttribute(name, Attribute(name, v) + rest)
            == Some((if Truthy(v) then v else None, rest))
  {
    if Truthy(v) {
      assert Attribute(name, v) + rest == (name + "=\"") + (v.value + ("\"" + rest));
      ExpectPrefix(name + "=\"", v.value + ("\"" + rest));
      ReadQuotedValue(v.value, rest);
    } else {
      assert Attribute(name, v) + rest == rest;
      assert !IsPrefix(name + "=\"", rest) by {
        assert (name + "=\"")[0] == name[0];
      }
    }
  }

  lemma ParseSizesOf(width: Option<string>, height: Option<string>)
    requires width.Some? ==> '"' !in width.value
    requires height.Some? ==> '"' !in height.value
    ensures ParseSizes(Attribute("width", width) + (" " + (Attribute("height", height) + "/>")))
            == Some((if Truthy(width) then width else None, if Truthy(height) then height else None))
  {
    var t3 := Attribute("height", height) + "/>";
    ReadAttributeValue("width", width, " " + t3);
    ExpectPrefix(" ", t3);
    ReadAttributeValue("height", height, "/>");
  }

  lemma ParseTagLayout(src: string, alt: string, rest: string)
    requires '"' !in src && '"' !in alt
    ensures ParseTag("<img src=\"" + (src + ("\" alt=\"" + (alt + ("\" " + rest)))))
            == (var sizes :- ParseSizes(rest); Some(TagParts(src, alt, sizes.0, sizes.1)))
  {
    var t1 := alt + ("\" " + rest);
    var t0 := src + ("\" alt=\"" + t1);
    ExpectPrefix("<img src=\"", t0);
    assert "\" alt=\"" + t1 == "\"" + (" alt=\"" + t1) by {
      assert "\" alt=\"" == "\"" + " alt=\"";
    }
    ReadQuotedValue(src, " alt=\"" + t1);
    assert ReadQuoted(t0) == Some((src, " alt=\"" + t1));
    ExpectPrefix(" alt=\"", t1);
    assert "\" " + rest == "\"" + (" " + rest) by {
      assert "\" " == "\"" + " ";
    }
    ReadQuotedValue(alt, " " + rest);
    assert ReadQuoted(t1) == Some((alt, " " + rest));
    ExpectPrefix(" ", rest);
  }

  lemma ParseImgTag(src: string, alt: string, width: Option<string>, height: Option<string>)
    requires '"' !in src && '"' !in alt
    requires width.Some? ==> '"' !in width.value
    requires height.Some? ==> '"' !in height.value
    ensures ParseTag(ImgTag(src, alt, width, height)) == Some(TagParts(
      src, alt, if Truthy(width) then width else None, if Truthy(height) then height else None))
  {
    ParseTagLayout(src, alt, Attribute("width", width) + (" " + (Attribute("height", height) + "/>")));
    ParseSizesOf(width, height);
  }

  /**
   * The tag names `<baseurl>/<filename>` as its source and "comic for <pubdate>"
   * as its alt text, and carries a width (height) attribute exactly when the
   * comic's width (height) is truthy.
   */
  lemma TagAttributes(c: Comic, baseurl: string)
    requires '"' !in baseurl && '"' !in c.filename
    requires c.width.Some? ==> '"' !in c.width.value
    requires c.height.Some? ==> '"' !in c.height.value
    ensures ParseTag(Tag(c, baseurl)) == Some(TagParts(
      baseurl + "/" + c.filename,
      "comic for " + IsoDate(c.pubdate),
      if Truthy(c.width) then c.width else None,
      if Truthy(c.height) then c.height else None))
  {
    var alt := "comic for " + IsoDate(c.pubdate);
    assert '"' !in alt by {
      assert forall i :: 0 <= i < |alt| ==> alt[i] != '"';
    }
    ParseImgTag(baseurl + "/" + c.filename, alt, c.width, c.height);
  }

  // ---------------------------------------------------------------------
  // The draft built by find_comic_by_pubdate

  /** The archive page for a date. */
  function StripUrl(pubdate: Day): string {
    "http://dilbert.com/strip/" + IsoDate(pubdate)
  }

  /** Different dates have different archive pages. */
  lemma StripUrlInjective(a: Day, b: Day)
    requires StripUrl(a) == StripUrl(b)
    ensures a == b
  {
    var p := "http://dilbert.com/strip/";
    assert IsoDate(a) == StripUrl(a)[|p|..] == IsoDate(b);
    IsoDateInjective(a, b);
  }

  /** Where the day's image is saved: `<iso date>.gif`. */
  function FileNameFor(pubdate: Day): (f: string)
    ensures |f| == |IsoDate(pubdate)| + 4 && f[..|IsoDate(pubdate)|] == IsoDate(pubdate)
    ensures f[|IsoDate(pubdate)|..] == ".gif"
  {
    IsoDate(pubdate) + ".gif"
  }

  /** Different dates get different file names (and so never collide in the store). */
  lemma FileNameInjective(a: Day, b: Day)
    requires FileNameFor(a) == FileNameFor(b)
    ensures a == b
  {
    assert IsoDate(a) == FileNameFor(a)[..|FileNameFor(a)| - 4] == IsoDate(b);
    IsoDateInjective(a, b);
  }

  /** The marker class of the comic image. */
  const ComicClass := "img-comic"

  /** `//img[@class and contains(concat(' ', normalize-space(@class), ' '), ' img-comic ')]` */
  predicate IsComicImage(e: Element) {
    e.tagName == "img" && e.classAttr.Some? && HasClass(e.classAttr.value, ComicClass)
  }

  /** An element is the comic image exactly when it is an `<img>` whose class list holds "img-comic". */
  lemma ComicImageByToken(e: Element)
    ensures IsComicImage(e) <==> e.tagName == "img" && e.classAttr.Some? && ComicClass in Tokens(e.classAttr.value)
  {
    if e.classAttr.Some? {
      HasClassIffToken(e.classAttr.value, ComicClass);
    }
  }

  /** Index of the first comic image in document order: `xpath(...)[0]`. */
  function FirstComicImage(page: seq<Element>): (k: Option<nat>)
    ensures k.None? <==> forall j :: 0 <= j < |page| ==> !IsComicImage(page[j])
    ensures k.Some? ==> k.value < |page| && IsComicImage(page[k.value])
    ensures k.Some? ==> forall j :: 0 <= j < k.value ==> !IsComicImage(page[j])
  {
    if page == [] then None
    else if IsComicImage(page[0]) then Some(0)
    else
      match FirstComicImage(page[1..])
      case None => None
      case Some(k) => Some(k + 1)
  }

  /** The draft comic for `pubdate` read off the chosen element. */
  function DraftFrom(pubdate: Day, el: Element): (r: Result<Comic, Error>)
    ensures r.Err? <==> el.alt.None?
    ensures r.Err? ==> r.error == MissingAlt
    ensures r.Ok? ==> r.value.id.None? && r.value.updated.None?
    ensures r.Ok? ==> r.value.pubdate == pubdate && r.value.filename == FileNameFor(pubdate)
    ensures r.Ok? ==> r.value.url == el.src && r.value.width == el.width && r.value.height == el.height
    ensures r.Ok? ==> r.value.title == NormaliseTitle(Some(StripTitle(el.alt.value)))
  {
    if el.alt.None? then Err(MissingAlt)
    else Ok(FromFields(None, pubdate, el.src, FileNameFor(pubdate),
                       Some(StripTitle(el.alt.value)), None, el.width, el.height))
  }

  /**
   * `find_comic_by_pubdate`: fetch the day's page (`fetch` returns None where
   * the request fails), pick the first comic image and build the draft.
   */
  function FindComicByPubdate(fetch: string -> Option<seq<Element>>, pubdate: Day): (r: Result<Comic, Error>)
    ensures fetch(StripUrl(pubdate)).None? ==> r == Err(Transport(StripUrl(pubdate)))
    ensures fetch(StripUrl(pubdate)).Some? && FirstComicImage(fetch(StripUrl(pubdate)).value).None?
            ==> r == Err(NoComicImage)
    ensures r.Ok? ==> fetch(StripUrl(pubdate)).Some?
    ensures r.Ok? ==> r.value.pubdate == pubdate && r.value.filename == FileNameFor(pubdate)
    ensures r.Ok? ==> r.value.id.None? && r.value.updated.None? && r.value.title != Some("")
    ensures fetch(StripUrl(pubdate)).Some? && FirstComicImage(fetch(StripUrl(pubdate)).value).Some? ==>
              r == DraftFrom(pubdate, fetch(StripUrl(pubdate)).value[FirstComicImage(fetch(StripUrl(pubdate)).value).value])
  {
    var page :- match fetch(StripUrl(pubdate))
                case None => Err(Transport(StripUrl(pubdate)))
                case Some(p) => Ok(p);
    match FirstComicImage(page)
    case None => Err(NoComicImage)
    case Some(k) => DraftFrom(pubdate, page[k])
  }
}
