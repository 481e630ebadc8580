/**
 * `WebScrapingService` (server/src/infrastructure/scrapers/WebScrapingService.js): finds
 * the elements of a fetched page that look like books and reads a title, an edition, an
 * image URL and a link out of each, by prioritised selector lists.
 *
 * The HTTP fetch and the HTML parser are not modelled: a parsed page is a `Document`, an
 * oracle answering the four questions the service asks of cheerio, and a fetched body is
 * a `Page`, known through what `cheerio.load` makes of it.
 */
module WebScraping {
  import opened Wrappers
  import opened Text
  import opened Search
  import opened WhatwgUrl

  /** An element of the parsed page, known only by identity. */
  type Element = nat

  /**
   * A parsed page: `select(s)` is `$(s)` (matches in document order), `find(e, s)` is
   * `$(e).find(s)`, `text(e)` is `$(e).text()` and `attr(e, n)` is `$(e).attr(n)`, None
   * where the attribute is missing.
   */
  datatype Document = Document(
    select: string -> seq<Element>,
    find: (Element, string) -> seq<Element>,
    text: Element -> string,
    attr: (Element, string) -> Option<string>)

  /** The body of a fetched response, as `cheerio.load(html)` sees it: a document, or the error it throws. */
  datatype Page = Page(load: Result<Document>)

  /** What the service reports for one book-like element. */
  datatype ScrapedBook = ScrapedBook(title: string, edition: Option<string>, imageUrl: Option<string>, sourceUrl: string)

  // ---------------------------------------------------------------- containers

  const BookSelectors: seq<string> := [".book-item", ".product-item", ".book", "[data-book]", ".item", "article", ".card"]
  const FallbackSelector := "div, article, section"

  /** The matches of `sel` in the page, when there is at least one. */
  function SelectorMatches(doc: Document, sel: string): Option<seq<Element>>
  {
    if doc.select(sel) != [] then Some(doc.select(sel)) else None
  }

  /** The fallback test: the lower-cased text mentions "book", "title" or "edition". */
  predicate MentionsBook(doc: Document, e: Element)
  {
    var t := ToLower(doc.text(e));
    Contains(t, "book") || Contains(t, "title") || Contains(t, "edition")
  }

  /** `.filter(...)` with `MentionsBook`: the mentioning elements, in their order. */
  function FilterMentions(doc: Document, es: seq<Element>): (r: seq<Element>)
    ensures |r| <= |es|
    ensures forall k :: 0 <= k < |r| ==> r[k] in es && MentionsBook(doc, r[k])
    ensures forall k :: 0 <= k < |es| && MentionsBook(doc, es[k]) ==> es[k] in r
  {
    if es == [] then []
    else
      var rest := FilterMentions(doc, es[1..]);
      assert forall x :: x in es[1..] ==> x in es;
      assert forall k :: 1 <= k < |es| ==> es[k] == es[1..][k - 1];
      if MentionsBook(doc, es[0]) then [es[0]] + rest else rest
  }

  /** Filtering runs along the list: the mentions in `a + b` are those of `a`, then those of `b`, each once. */
  lemma {:induction false} FilterMentionsAppend(doc: Document, a: seq<Element>, b: seq<Element>)
    ensures FilterMentions(doc, a + b) == FilterMentions(doc, a) + FilterMentions(doc, b)
  {
    if a == [] {
      assert a + b == b;
    } else {
      var ab := a + b;
      assert ab[0] == a[0] && ab[1..] == a[1..] + b;
      FilterMentionsAppend(doc, a[1..], b);
    }
  }

  /** One element more: it is kept at the end exactly when it mentions a book. */
  lemma FilterMentionsSnoc(doc: Document, es: seq<Element>, x: Element)
    ensures FilterMentions(doc, es + [x]) == FilterMentions(doc, es) + (if MentionsBook(doc, x) then [x] else [])
  {
    FilterMentionsAppend(doc, es, [x]);
    assert FilterMentions(doc, [x]) == (if MentionsBook(doc, x) then [x] else []) by {
      assert [x][1..] == [];
    }
  }

  /**
   * The book containers: the matches of the first selector in `BookSelectors` that has
   * any; when none has, every div, article or section (nested ones included) whose text
   * mentions a book.
   */
  function Containers(doc: Document): (es: seq<Element>)
    ensures (exists k :: 0 <= k < |BookSelectors| && doc.select(BookSelectors[k]) != []) ==>
      exists k :: (&& 0 <= k < |BookSelectors| && es == doc.select(BookSelectors[k]) && es != []
                   && forall j :: 0 <= j < k ==> doc.select(BookSelectors[j]) == [])
    ensures (forall k :: 0 <= k < |BookSelectors| ==> doc.select(BookSelectors[k]) == []) ==>
      es == FilterMentions(doc, doc.select(FallbackSelector))
  {
    var f := sel => SelectorMatches(doc, sel);
    assert forall k :: 0 <= k < |BookSelectors| ==> f(BookSelectors[k]) == SelectorMatches(doc, BookSelectors[k]);
    match FirstSome(f, BookSelectors)
    case Some(found) => found
    case None => FilterMentions(doc, doc.select(FallbackSelector))
  }

  // ---------------------------------------------------------------- title

  const TitleSelectors: seq<string> :=
    ["h1", "h2", "h3", "h4", ".title", ".book-title", ".product-title", "[data-title]", "[title]", "strong", "b"]

  /** The title `sel` yields: the trimmed text of its first match, if that is non-empty and under 500 characters. */
  function TitleBySelector(doc: Document, e: Element, sel: string): (r: Option<string>)
    ensures r.Some? ==> 0 < |r.value| < 500 && Trimmed(r.value)
  {
    var found := doc.find(e, sel);
    if found == [] then None
    else
      var t := Trim(doc.text(found[0]));
      if 0 < |t| < 500 then Some(t) else None
  }

  /** A line, trimmed, if anything is left of it. */
  function NonBlank(line: string): (r: Option<string>)
    ensures r.Some? ==> r.value != [] && Trimmed(r.value)
  {
    var t := Trim(line);
    if |t| > 0 then Some(t) else None
  }

  /** `lines[0] || null` over the trimmed, non-empty lines of the trimmed text. */
  function FirstLine(text: string): (r: Option<string>)
    ensures r.Some? ==> r.value != [] && Trimmed(r.value) && '\n' !in r.value
  {
    var lines := Split(Trim(text), '\n');
    var r := FirstSome(NonBlank, lines);
    if r.Some? then
      var k :| 0 <= k < |lines| && r == NonBlank(lines[k]);
      TrimNoNewLine(lines[k]);
      r
    else r
  }

  /** Trimming only cuts characters off, so it adds no line break. */
  lemma TrimNoNewLine(s: string)
    requires '\n' !in s
    ensures '\n' !in Trim(s)
  {
    var k :| TrimSplit(s, Trim(s), k);
    assert forall c :: c in Trim(s) ==> c in s;
  }

  /**
   * `extractTitle`: the first selector in `TitleSelectors` that yields a title decides it;
   * failing all, the first non-blank line of the element's text, with no length cap.
   */
  function ExtractTitle(doc: Document, e: Element): (r: Option<string>)
    ensures r.Some? ==> r.value != [] && Trimmed(r.value)
  {
    match FirstSome(sel => TitleBySelector(doc, e, sel), TitleSelectors)
    case Some(t) => Some(t)
    case None => FirstLine(doc.text(e))
  }

  /**
   * The first selector with a title decides it: the title is that selector's hit, so
   * it is under 500 characters.
   */
  lemma TitleFromFirstSelector(doc: Document, e: Element, k: nat)
    requires k < |TitleSelectors| && TitleBySelector(doc, e, TitleSelectors[k]).Some?
    requires forall j :: 0 <= j < k ==> TitleBySelector(doc, e, TitleSelectors[j]).None?
    ensures ExtractTitle(doc, e) == TitleBySelector(doc, e, TitleSelectors[k])
    ensures 0 < |ExtractTitle(doc, e).value| < 500
  {
    var f := sel => TitleBySelector(doc, e, sel);
    assert forall j :: 0 <= j < |TitleSelectors| ==> f(TitleSelectors[j]) == TitleBySelector(doc, e, TitleSelectors[j]);
    FirstSomeAt(f, TitleSelectors, k);
  }

  /** With no selector title, the title is the first non-blank line of the element's text, of any length. */
  lemma TitleFromText(doc: Document, e: Element)
    requires forall k :: 0 <= k < |TitleSelectors| ==> TitleBySelector(doc, e, TitleSelectors[k]).None?
    ensures ExtractTitle(doc, e) == FirstLine(doc.text(e))
  {
    var f := sel => TitleBySelector(doc, e, sel);
    assert forall j :: 0 <= j < |TitleSelectors| ==> f(TitleSelectors[j]) == TitleBySelector(doc, e, TitleSelectors[j]);
  }

  // ---------------------------------------------------------------- edition

  const EditionSelectors: seq<string> := [".edition", ".version", ".ed", "[data-edition]", "[data-version]"]

  /** The edition `sel` yields: the trimmed text of its first match, if non-empty. */
  function EditionBySelector(doc: Document, e: Element, sel: string): (r: Option<string>)
    ensures r.Some? ==> r.value != [] && Trimmed(r.value)
  {
    var found := doc.find(e, sel);
    if found == [] then None else NonBlank(doc.text(found[0]))
  }

  predicate IsDigit(c: char)
  {
    '0' <= c <= '9'
  }

  predicate AllDigits(s: string)
  {
    forall k :: 0 <= k < |s| ==> IsDigit(s[k])
  }

  /** The end of the run of digits that starts at `i`. */
  function DigitRunEnd(t: string, i: nat): (j: nat)
    requires i <= |t|
    ensures i <= j <= |t| && AllDigits(t[i..j]) && (j < |t| ==> !IsDigit(t[j]))
    decreases |t| - i
  {
    if i < |t| && IsDigit(t[i]) then
      var j := DigitRunEnd(t, i + 1);
      assert t[i..j] == [t[i]] + t[i + 1..j];
      j
    else i
  }

  /** The end of the run of whitespace that starts at `i`. */
  function SpaceRunEnd(t: string, i: nat): (j: nat)
    requires i <= |t|
    ensures i <= j <= |t| && AllSpace(t[i..j]) && (j < |t| ==> !IsSpace(t[j]))
    decreases |t| - i
  {
    if i < |t| && IsSpace(t[i]) then
      var j := SpaceRunEnd(t, i + 1);
      assert t[i..j] == [t[i]] + t[i + 1..j];
      j
    else i
  }

  const Edition := "edition"

  predicate IsOrdinalSuffix(s: string)
  {
    s == "st" || s == "nd" || s == "rd" || s == "th"
  }

  /**
   * What `/(\d+)(st|nd|rd|th)\s*edition|edition\s*(\d+)/` matches as a whole: digits, an
   * ordinal suffix, whitespace and "edition"; or "edition", whitespace and digits.
   */
  ghost predicate EditionPhrase(m: string)
  {
    || (exists d, w :: d != [] && AllDigits(d) && AllSpace(w) && OrdinalPhrase(m, d, w))
    || (exists w, d :: d != [] && AllDigits(d) && AllSpace(w) && m == Edition + w + d)
  }

  ghost predicate OrdinalPhrase(m: string, d: string, w: string)
  {
    exists suffix :: IsOrdinalSuffix(suffix) && m == d + suffix + w + Edition
  }

  /** The first alternative at `i`: the end of the match, if there is one. */
  function OrdinalMatchAt(t: string, i: nat): (r: Option<nat>)
    requires i <= |t|
    ensures r.Some? ==> i < r.value <= |t| && EditionPhrase(t[i..r.value])
  {
    var j := DigitRunEnd(t, i);
    if j > i && j + 2 <= |t| && IsOrdinalSuffix(t[j..j + 2]) then
      var k := SpaceRunEnd(t, j + 2);
      if k + 7 <= |t| && t[k..k + 7] == Edition then
        assert t[i..k + 7] == t[i..j] + t[j..j + 2] + t[j + 2..k] + Edition;
        assert OrdinalPhrase(t[i..k + 7], t[i..j], t[j + 2..k]);
        Some(k + 7)
      else None
    else None
  }

  /** The second alternative at `i`: the end of the match, if there is one. */
  function NumberedMatchAt(t: string, i: nat): (r: Option<nat>)
    requires i <= |t|
    ensures r.Some? ==> i < r.value <= |t| && EditionPhrase(t[i..r.value])
  {
    if i + 7 <= |t| && t[i..i + 7] == Edition then
      var m := SpaceRunEnd(t, i + 7);
      var n := DigitRunEnd(t, m);
      if n > m then
        assert t[i..n] == Edition + t[i + 7..m] + t[m..n];
        Some(n)
      else None
    else None
  }

  /** The match starting at `i`, the first alternative being preferred. */
  function EditionMatchAt(t: string, i: nat): (r: Option<nat>)
    requires i <= |t|
    ensures r.Some? ==> i < r.value <= |t| && EditionPhrase(t[i..r.value])
  {
    if OrdinalMatchAt(t, i).Some? then OrdinalMatchAt(t, i) else NumberedMatchAt(t, i)
  }

  /**
   * `t.match(regex)[0]` searched from `i`: the leftmost match. The regex admits no
   * backtracking that changes a match (a shorter digit or space run is followed by a
   * digit or a space, never by what the pattern needs next), so the scan is exact.
   */
  function FindEdition(t: string, i: nat): (r: Option<string>)
    requires i <= |t|
    ensures r.None? <==> forall k :: i <= k <= |t| ==> EditionMatchAt(t, k).None?
    ensures r.Some? ==> EditionPhrase(r.value)
    ensures r.Some? ==> exists k :: (&& i <= k <= |t| && EditionMatchAt(t, k).Some?
      && r.value == t[k..EditionMatchAt(t, k).value] && forall j :: i <= j < k ==> EditionMatchAt(t, j).None?)
    decreases |t| - i
  {
    match EditionMatchAt(t, i)
    case Some(end) => Some(t[i..end])
    case None =>
      if i == |t| then None else FindEdition(t, i + 1)
  }

  /**
   * `extractEdition`: the first edition selector whose first match has non-blank text;
   * failing all, the leftmost edition phrase in the lower-cased text of the element.
   */
  function ExtractEdition(doc: Document, e: Element): (r: Option<string>)
    ensures r.Some? ==> r.value != []
    ensures (forall k :: 0 <= k < |EditionSelectors| ==> EditionBySelector(doc, e, EditionSelectors[k]).None?) ==>
      r == FindEdition(ToLower(doc.text(e)), 0)
  {
    var f := sel => EditionBySelector(doc, e, sel);
    assert forall k :: 0 <= k < |EditionSelectors| ==> f(EditionSelectors[k]) == EditionBySelector(doc, e, EditionSelectors[k]);
    match FirstSome(f, EditionSelectors)
    case Some(ed) => Some(ed)
    case None =>
      var found := FindEdition(ToLower(doc.text(e)), 0);
      assert found.Some? ==> found.value != [] by {
        if found.Some? {
          var k :| 0 <= k <= |ToLower(doc.text(e))| && EditionMatchAt(ToLower(doc.text(e)), k).Some?
            && found.value == ToLower(doc.text(e))[k..EditionMatchAt(ToLower(doc.text(e)), k).value];
        }
      }
      found
  }

  /** The first edition selector whose first match has non-blank text decides the edition: it is that text. */
  lemma EditionFromFirstSelector(doc: Document, e: Element, k: nat)
    requires k < |EditionSelectors| && EditionBySelector(doc, e, EditionSelectors[k]).Some?
    requires forall j :: 0 <= j < k ==> EditionBySelector(doc, e, EditionSelectors[j]).None?
    ensures ExtractEdition(doc, e) == EditionBySelector(doc, e, EditionSelectors[k])
    ensures Trimmed(ExtractEdition(doc, e).value)
  {
    var f := sel => EditionBySelector(doc, e, sel);
    assert forall j :: 0 <= j < |EditionSelectors| ==> f(EditionSelectors[j]) == EditionBySelector(doc, e, EditionSelectors[j]);
    FirstSomeAt(f, EditionSelectors, k);
  }

  // ---------------------------------------------------------------- URLs

  /**
   * Turns an attribute value into an absolute URL: one starting with "/" is appended
   * to the protocol and host of the page URL (so "//cdn/x" also gets the page's host);
   * one not starting with "http" is resolved against the page URL; anything else is
   * returned as it is. A URL that does not parse throws.
   */
  function Resolve(p: UrlParser, value: string, baseUrl: string): (r: Result<string>)
    ensures StartsWith(value, "/") ==>
      r == (match p.parse(baseUrl, None)
            case Some(u) => Ok(u.protocol + "//" + u.host + value)
            case None => Err(InvalidUrl))
    ensures !StartsWith(value, "/") && !StartsWith(value, "http") ==>
      r == (match p.parse(value, Some(baseUrl))
            case Some(u) => Ok(u.href)
            case None => Err(InvalidUrl))
    ensures StartsWith(value, "http") ==> r == Ok(value)
  {
    if StartsWith(value, "/") then
      SlashIsNotHttp(value);
      match NewUrl(p, baseUrl, None)
      case Ok(u) => Ok(u.protocol + "//" + u.host + value)
      case Err(m) => Err(m)
    else if !StartsWith(value, "http") then
      match NewUrl(p, value, Some(baseUrl))
      case Ok(u) => Ok(u.href)
      case Err(m) => Err(m)
    else Ok(value)
  }

  lemma SlashIsNotHttp(value: string)
    requires StartsWith(value, "/")
    ensures !StartsWith(value, "http")
  {
    assert value[0] == value[..1][0] == '/';
    assert |value| >= 4 ==> value[..4][0] == '/';
  }

  /** `a || b || ...` over attribute reads: the first one present and non-empty. */
  function FirstTruthy(values: seq<Option<string>>): (r: Option<string>)
    ensures r.Some? ==> r.value != [] && r in values
    ensures r.None? ==> forall k :: 0 <= k < |values| ==> values[k].None? || values[k].value == []
  {
    if values == [] then None
    else if values[0].Some? && values[0].value != [] then values[0]
    else FirstTruthy(values[1..])
  }

  const ImageSelectors: seq<string> := ["img[src]", "img[data-src]", "img[data-lazy]", ".image img", ".book-image img", ".product-image img"]
  const LinkSelectors: seq<string> := ["a[href]", ".link a", ".book-link a", ".product-link a"]

  /** The image address `sel` yields: `src || data-src || data-lazy` of its first match. */
  function ImageSource(doc: Document, e: Element, sel: string): Option<string>
  {
    var found := doc.find(e, sel);
    if found == [] then None
    else FirstTruthy([doc.attr(found[0], "src"), doc.attr(found[0], "data-src"), doc.attr(found[0], "data-lazy")])
  }

  /** The link `sel` yields: the non-empty `href` of its first match. */
  function LinkTarget(doc: Document, e: Element, sel: string): Option<string>
  {
    var found := doc.find(e, sel);
    if found == [] then None else FirstTruthy([doc.attr(found[0], "href")])
  }

  /** `extractImageUrl`: the first image address found, resolved; null when there is none. */
  function ExtractImageUrl(p: UrlParser, doc: Document, e: Element, baseUrl: string): (r: Result<Option<string>>)
    ensures FirstSome(sel => ImageSource(doc, e, sel), ImageSelectors).None? ==> r == Ok(None)
    ensures FirstSome(sel => ImageSource(doc, e, sel), ImageSelectors).Some? ==>
      var src := FirstSome(sel => ImageSource(doc, e, sel), ImageSelectors).value;
      && src != []
      && (Resolve(p, src, baseUrl).Ok? ==> r == Ok(Some(Resolve(p, src, baseUrl).value)))
      && (Resolve(p, src, baseUrl).Err? ==> r == Err(InvalidUrl))
  {
    var f := sel => ImageSource(doc, e, sel);
    match FirstSome(f, ImageSelectors)
    case None => Ok(None)
    case Some(src) =>
      var k :| 0 <= k < |ImageSelectors| && Some(src) == f(ImageSelectors[k]);
      match Resolve(p, src, baseUrl)
      case Ok(u) => Ok(Some(u))
      case Err(m) => Err(m)
  }

  /** `extractSourceUrl`: the first link found, resolved; the page URL when there is none. */
  function ExtractSourceUrl(p: UrlParser, doc: Document, e: Element, baseUrl: string): (r: Result<string>)
    ensures FirstSome(sel => LinkTarget(doc, e, sel), LinkSelectors).None? ==> r == Ok(baseUrl)
    ensures FirstSome(sel => LinkTarget(doc, e, sel), LinkSelectors).Some? ==>
      r == Resolve(p, FirstSome(sel => LinkTarget(doc, e, sel), LinkSelectors).value, baseUrl)
  {
    match FirstSome(sel => LinkTarget(doc, e, sel), LinkSelectors)
    case None => Ok(baseUrl)
    case Some(href) => Resolve(p, href, baseUrl)
  }

  // ---------------------------------------------------------------- extraction

  /**
   * One pass of the `each` callback: the four fields are computed in order (a URL error
   * is thrown even when there is no title), and a record is kept exactly when the title
   * is truthy; it carries the four extracted values.
   */
  function RecordOf(p: UrlParser, doc: Document, baseUrl: string, e: Element): (r: Result<Option<ScrapedBook>>)
    ensures r.Ok? <==> ExtractImageUrl(p, doc, e, baseUrl).Ok? && ExtractSourceUrl(p, doc, e, baseUrl).Ok?
    ensures r.Ok? ==> (r.value.Some? <==> ExtractTitle(doc, e).Some?)
    ensures r.Ok? && r.value.Some? ==>
      r.value.value == ScrapedBook(ExtractTitle(doc, e).value, ExtractEdition(doc, e),
                                   ExtractImageUrl(p, doc, e, baseUrl).value, ExtractSourceUrl(p, doc, e, baseUrl).value)
    ensures r.Ok? && r.value.Some? ==> r.value.value.title != [] && Trimmed(r.value.value.title)
  {
    var title := ExtractTitle(doc, e);
    var edition := ExtractEdition(doc, e);
    match ExtractImageUrl(p, doc, e, baseUrl)
    case Err(m) => Err(m)
    case Ok(image) =>
      match ExtractSourceUrl(p, doc, e, baseUrl)
      case Err(m) => Err(m)
      case Ok(source) =>
        if title.Some? then Ok(Some(ScrapedBook(title.value, edition, image, source))) else Ok(None)
  }

  /** What one element yields: an error, nothing, or a record. */
  type Outcome<T> = Element -> Result<Option<T>>

  /**
   * The `each` loop in general: `rec` runs on the elements in order, the records it
   * yields are collected in that order, and the first error aborts the whole run with
   * that error.
   */
  function Collect<T>(rec: Outcome<T>, es: seq<Element>): (r: Result<seq<T>>)
    ensures r.Ok? ==> |r.value| <= |es|
    ensures r.Ok? <==> forall k :: 0 <= k < |es| ==> rec(es[k]).Ok?
    ensures r.Err? ==> exists k :: (&& 0 <= k < |es| && rec(es[k]).Err? && r.message == rec(es[k]).message
      && forall j :: 0 <= j < k ==> rec(es[j]).Ok?)
  {
    if es == [] then Ok([])
    else
      var init := es[..|es| - 1];
      var last := es[|es| - 1];
      assert forall k :: 0 <= k < |init| ==> init[k] == es[k];
      match Collect(rec, init)
      case Err(m) => Err(m)
      case Ok(books) =>
        match rec(last)
        case Err(m) => Err(m)
        case Ok(None) => Ok(books)
        case Ok(Some(b)) => Ok(books + [b])
  }

  /** The elements for which `rec` yields a record, in their order. */
  function Kept<T>(rec: Outcome<T>, es: seq<Element>): (r: seq<Element>)
    ensures |r| <= |es|
    ensures forall k :: 0 <= k < |r| ==> r[k] in es && rec(r[k]).Ok? && rec(r[k]).value.Some?
    ensures forall k :: 0 <= k < |es| && rec(es[k]).Ok? && rec(es[k]).value.Some? ==> es[k] in r
  {
    if es == [] then []
    else
      var init := es[..|es| - 1];
      var last := es[|es| - 1];
      var rest := Kept(rec, init);
      assert forall k :: 0 <= k < |init| ==> init[k] == es[k];
      assert forall x :: x in init ==> x in es;
      if rec(last).Ok? && rec(last).value.Some? then rest + [last] else rest
  }

  /** One element more: it is kept at the end exactly when it yields a record. */
  lemma KeptSnoc<T>(rec: Outcome<T>, es: seq<Element>, x: Element)
    ensures Kept(rec, es + [x]) == Kept(rec, es) + (if rec(x).Ok? && rec(x).value.Some? then [x] else [])
  {
    assert (es + [x])[..|es|] == es;
  }

  /** Keeping runs along the list: the kept elements of `a + b` are those of `a`, then those of `b`, each once. */
  lemma {:induction false} KeptAppend<T>(rec: Outcome<T>, a: seq<Element>, b: seq<Element>)
    ensures Kept(rec, a + b) == Kept(rec, a) + Kept(rec, b)
    decreases |b|
  {
    if b == [] {
      assert a + b == a;
    } else {
      var init := b[..|b| - 1];
      var last := b[|b| - 1];
      assert b == init + [last];
      assert a + b == (a + init) + [last];
      KeptAppend(rec, a, init);
      KeptSnoc(rec, a + init, last);
      KeptSnoc(rec, init, last);
    }
  }

  /** A successful run holds one record per kept element, the k-th from the k-th. */
  lemma {:induction false} CollectKept<T>(rec: Outcome<T>, es: seq<Element>)
    requires Collect(rec, es).Ok?
    ensures |Collect(rec, es).value| == |Kept(rec, es)|
    ensures forall k :: 0 <= k < |Kept(rec, es)| ==> rec(Kept(rec, es)[k]) == Ok(Some(Collect(rec, es).value[k]))
  {
    if es != [] {
      var init := es[..|es| - 1];
      CollectKept(rec, init);
    }
  }

  /** One more element: its outcome is added to what the prefix before it gave. */
  lemma CollectStep<T>(rec: Outcome<T>, es: seq<Element>, j: nat)
    requires j < |es|
    ensures Collect(rec, es[..j + 1]) ==
      match Collect(rec, es[..j])
      case Err(m) => Err(m)
      case Ok(books) =>
        match rec(es[j])
        case Err(m) => Err(m)
        case Ok(None) => Ok(books)
        case Ok(Some(b)) => Ok(books + [b])
  {
    assert es[..j + 1][..j] == es[..j];
  }

  /** Once a prefix fails, the whole run fails with the same error. */
  lemma {:induction false} PrefixErrorIsFinal<T>(rec: Outcome<T>, es: seq<Element>, n: nat)
    requires n <= |es| && Collect(rec, es[..n]).Err?
    ensures Collect(rec, es) == Collect(rec, es[..n])
    decreases |es| - n
  {
    if n == |es| {
      assert es[..n] == es;
    } else {
      assert es[..n + 1][..n] == es[..n];
      PrefixErrorIsFinal(rec, es, n + 1);
    }
  }

  /** The records of `es`: the `each` loop run with `RecordOf`. */
  function Records(p: UrlParser, doc: Document, baseUrl: string, es: seq<Element>): (r: Result<seq<ScrapedBook>>)
    ensures r.Ok? ==> |r.value| <= |es|
    ensures r.Ok? <==> forall k :: 0 <= k < |es| ==> RecordOf(p, doc, baseUrl, es[k]).Ok?
  {
    var rec := e => RecordOf(p, doc, baseUrl, e);
    assert forall k :: 0 <= k < |es| ==> rec(es[k]) == RecordOf(p, doc, baseUrl, es[k]);
    Collect(rec, es)
  }

  /**
   * A successful extraction yields exactly one record per element that has a title, in
   * element order, and the k-th record's title is the k-th such element's title: never
   * empty and never padded with whitespace.
   */
  lemma RecordsFollowTitles(p: UrlParser, doc: Document, baseUrl: string, es: seq<Element>)
    requires Records(p, doc, baseUrl, es).Ok?
    ensures var kept := Kept(e => RecordOf(p, doc, baseUrl, e), es);
      && |Records(p, doc, baseUrl, es).value| == |kept|
      && (forall k :: 0 <= k < |es| && ExtractTitle(doc, es[k]).Some? ==> es[k] in kept)
      && (forall k :: 0 <= k < |kept| ==>
            ExtractTitle(doc, kept[k]).Some? && Records(p, doc, baseUrl, es).value[k].title == ExtractTitle(doc, kept[k]).value)
    ensures forall k :: 0 <= k < |Records(p, doc, baseUrl, es).value| ==>
      Records(p, doc, baseUrl, es).value[k].title != [] && Trimmed(Records(p, doc, baseUrl, es).value[k].title)
  {
    var rec := e => RecordOf(p, doc, baseUrl, e);
    CollectKept(rec, es);
    var kept := Kept(rec, es);
    var books := Records(p, doc, baseUrl, es).value;
    forall k | 0 <= k < |kept|
      ensures ExtractTitle(doc, kept[k]).Some? && books[k].title == ExtractTitle(doc, kept[k]).value
    {
      assert rec(kept[k]) == Ok(Some(books[k]));
    }
    forall k | 0 <= k < |es| && ExtractTitle(doc, es[k]).Some?
      ensures es[k] in kept
    {
      assert rec(es[k]).Ok?;
    }
  }

  /** A URL that does not resolve aborts the whole extraction with that URL's error. */
  lemma FirstUrlErrorAborts(p: UrlParser, doc: Document, baseUrl: string, es: seq<Element>)
    requires Records(p, doc, baseUrl, es).Err?
    ensures exists k :: (&& 0 <= k < |es| && RecordOf(p, doc, baseUrl, es[k]).Err?
      && Records(p, doc, baseUrl, es).message == RecordOf(p, doc, baseUrl, es[k]).message
      && forall j :: 0 <= j < k ==> RecordOf(p, doc, baseUrl, es[j]).Ok?)
  {
    var rec := e => RecordOf(p, doc, baseUrl, e);
    var k :| && 0 <= k < |es| && rec(es[k]).Err? && Collect(rec, es).message == rec(es[k]).message
      && forall j :: 0 <= j < k ==> rec(es[j]).Ok?;
    assert forall j :: 0 <= j < k ==> RecordOf(p, doc, baseUrl, es[j]).Ok? by {
      forall j | 0 <= j < k ensures RecordOf(p, doc, baseUrl, es[j]).Ok? {
        assert rec(es[j]).Ok?;
      }
    }
  }

  /**
   * The first half of `extractBookData`: the loop over `BookSelectors` that stops at the
   * first selector with matches, then the fallback filter when none had any.
   */
  method FindBookElements(doc: Document) returns (bookElements: seq<Element>)
    ensures bookElements == Containers(doc)
  {
    bookElements := [];
    var i := 0;
    while i < |BookSelectors|
      invariant 0 <= i <= |BookSelectors|
      invariant bookElements == []
      invariant forall k :: 0 <= k < i ==> SelectorMatches(doc, BookSelectors[k]).None?
    {
      bookElements := doc.select(BookSelectors[i]);
      if |bookElements| > 0 {
        break;
      }
      i := i + 1;
    }
    ghost var f := sel => SelectorMatches(doc, sel);
    assert forall k :: 0 <= k < |BookSelectors| ==> f(BookSelectors[k]) == SelectorMatches(doc, BookSelectors[k]);
    if |bookElements| == 0 {
      bookElements := FilterMentions(doc, doc.select(FallbackSelector));
    } else {
      assert FirstSome(f, BookSelectors) == Some(bookElements);
    }
  }

  /**
   * `extractBookData`: finds the book elements, then the `each` loop pushes one record
   * per element with a title; a URL that does not resolve throws out of the loop.
   */
  method ExtractBookData(p: UrlParser, doc: Document, baseUrl: string) returns (r: Result<seq<ScrapedBook>>)
    ensures r == Records(p, doc, baseUrl, Containers(doc))
  {
    var bookElements := FindBookElements(doc);
    ghost var rec := e => RecordOf(p, doc, baseUrl, e);
    var books: seq<ScrapedBook> := [];
    var j := 0;
    while j < |bookElements|
      invariant 0 <= j <= |bookElements|
      invariant Collect(rec, bookElements[..j]) == Ok(books)
    {
      var element := bookElements[j];
      CollectStep(rec, bookElements, j);
      assert rec(element) == RecordOf(p, doc, baseUrl, element);
      var title := ExtractTitle(doc, element);
      var edition := ExtractEdition(doc, element);
      var imageUrl := ExtractImageUrl(p, doc, element, baseUrl);
      if imageUrl.Err? {
        r := Err(imageUrl.message);
        PrefixErrorIsFinal(rec, bookElements, j + 1);
        return;
      }
      var sourceUrl := ExtractSourceUrl(p, doc, element, baseUrl);
      if sourceUrl.Err? {
        r := Err(sourceUrl.message);
        PrefixErrorIsFinal(rec, bookElements, j + 1);
        return;
      }
      if title.Some? {
        books := books + [ScrapedBook(title.value, edition, imageUrl.value, sourceUrl.value)];
      }
      j := j + 1;
    }
    assert bookElements[..j] == bookElements;
    r := Ok(books);
  }

  const ScrapeFailurePrefix := "Failed to scrape URL: "

  /**
   * The extraction `scrapeBooks` hands a fetched body to: `extractBookData(html, url)`,
   * whose first step, `cheerio.load(html)`, throws inside the async function.
   */
  function Extraction(p: UrlParser, url: string): Page -> Result<seq<ScrapedBook>>
  {
    (page: Page) =>
      match page.load
      case Err(m) => Err(m)
      case Ok(doc) => Records(p, doc, url, Containers(doc))
  }

  /** The `try`/`catch` around the fetch: a failed fetch is rethrown with the prefix, a fetched body is handed on. */
  function AfterFetch<D, T>(fetched: Result<D>, extract: D -> Result<T>): (r: Result<T>)
    ensures fetched.Err? ==> r == Err(ScrapeFailurePrefix + fetched.message)
    ensures fetched.Ok? ==> r == extract(fetched.value)
  {
    match fetched
    case Err(m) => Err(ScrapeFailurePrefix + m)
    case Ok(page) => extract(page)
  }

  /**
   * `scrapeBooks(url)`: `fetched` is the outcome of the HTTP request alone. A fetch
   * failure is rethrown with the "Failed to scrape URL: " prefix; the extraction's own
   * promise is returned without `await`, so a parse or extraction error escapes the
   * `try` and settles the call unprefixed (see `ScrapeFetchedPage`).
   */
  function ScrapeBooks(p: UrlParser, fetched: Result<Page>, url: string): (r: Result<seq<ScrapedBook>>)
    ensures fetched.Err? ==> r == Err(ScrapeFailurePrefix + fetched.message)
    ensures fetched.Ok? && fetched.value.load.Err? ==> r == Err(fetched.value.load.message)
  {
    AfterFetch(fetched, Extraction(p, url))
  }

  /**
   * A fetched body is scraped by the extraction alone: a parse error and an extraction
   * error come back as they are, without the prefix, and a success yields at most one
   * record per container.
   */
  lemma ScrapeFetchedPage(p: UrlParser, page: Page, url: string)
    ensures page.load.Err? ==> ScrapeBooks(p, Ok(page), url) == Err(page.load.message)
    ensures page.load.Ok? ==>
      var doc := page.load.value;
      && ScrapeBooks(p, Ok(page), url) == Records(p, doc, url, Containers(doc))
      && (ScrapeBooks(p, Ok(page), url).Ok? ==> |ScrapeBooks(p, Ok(page), url).value| <= |Containers(doc)|)
  {
  }
}
