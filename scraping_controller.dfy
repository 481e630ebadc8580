/**
 * `ScrapingController.scrapeData` (server/src/application/controllers/ScrapingController.js):
 * validate the body, refuse a group name that is already stored, create and save the
 * group, scrape the page, then save every scraped book that can be built, skipping the
 * ones that cannot. The request body, the fetch outcome and the clock are parameters;
 * a thrown error handed to `next` is an `Err` result.
 */
module ScrapingController {
  import opened Wrappers
  import opened Js
  import opened Text
  import opened WhatwgUrl
  import opened StringCleaner
  import opened ValueObjects
  import opened Entities
  import opened Requests
  import opened WebScraping
  import opened JsNumbers
  import BG = BookGroupRepository
  import BR = BookRepository
  import Tables

  /**
   * The injected web scraping service, as its `scrapeBooks(url)`; `ScrapeBooks` of
   * `WebScraping`, with the fetched body, is the service the application wires in.
   */
  type Scraper = string -> Result<seq<ScrapedBook>>

  /** The service wired to the body that the request for any URL fetches (`fetched`). */
  function Service(p: UrlParser, fetched: Result<Page>): Scraper
  {
    url => ScrapeBooks(p, fetched, url)
  }

  /**
   * Wired to the real service, a failed fetch reaches `next` with the service's prefix,
   * a body cheerio cannot load reaches it with cheerio's own message, and a parsed page
   * yields the records of its containers.
   */
  lemma ServiceOutcome(p: UrlParser, fetched: Result<Page>, url: string)
    ensures fetched.Err? ==> Service(p, fetched)(url) == Err(ScrapeFailurePrefix + fetched.message)
    ensures fetched.Ok? && fetched.value.load.Err? ==> Service(p, fetched)(url) == Err(fetched.value.load.message)
    ensures fetched.Ok? && fetched.value.load.Ok? ==>
      var doc := fetched.value.load.value;
      Service(p, fetched)(url) == Records(p, doc, url, Containers(doc))
  {
    if fetched.Ok? {
      ScrapeFetchedPage(p, fetched.value, url);
    }
  }

  /** The `data` of the 201 response. */
  datatype ScrapeResponse = ScrapeResponse(status: int, groupId: int, groupName: GroupName, booksScraped: nat, message: string)

  function AlreadyExists(name: string): string
  {
    "Group \"" + name + "\" already exists"
  }

  function SuccessMessage(n: nat): string
  {
    "Successfully scraped " + NatToString(n) + " books"
  }

  /** `Book.create(bookData.title, ...)` for one scraped record, in the saved group, at time `now`. */
  function MakeBook(p: UrlParser, groupId: int, now: int): ScrapedBook -> Result<Book>
  {
    (b: ScrapedBook) => CreateBook(p, Str(b.title), BR.Column(b.edition), BR.Column(b.imageUrl), Str(b.sourceUrl), groupId, now)
  }

  /**
   * The values of the calls of `f` that succeed, in order: the books the loop saves,
   * a failing call being skipped.
   */
  function Successes<A, B>(f: A -> Result<B>, s: seq<A>): (r: seq<B>)
    ensures |r| <= |s|
  {
    if s == [] then []
    else
      var done := Successes(f, s[..|s| - 1]);
      match f(s[|s| - 1])
      case Ok(b) => done + [b]
      case Err(_) => done
  }

  /**
   * All candidates saved exactly when `make` accepts each of them; none saved when it
   * rejects each of them; and every saved value is what `make` built from some candidate.
   */
  lemma {:induction false} SuccessesSpec<A, B>(f: A -> Result<B>, s: seq<A>)
    ensures |Successes(f, s)| == |s| <==> forall k :: 0 <= k < |s| ==> f(s[k]).Ok?
    ensures (forall k :: 0 <= k < |s| ==> f(s[k]).Err?) ==> Successes(f, s) == []
    ensures forall k :: 0 <= k < |Successes(f, s)| ==> exists j :: 0 <= j < |s| && f(s[j]) == Ok(Successes(f, s)[k])
  {
    if s != [] {
      var init := s[..|s| - 1];
      SuccessesSpec(f, init);
      assert forall k :: 0 <= k < |init| ==> init[k] == s[k];
    }
  }

  /** One failing candidate among three: the other two are saved, in order. */
  lemma OneBadCandidateOfThree<A, B>(f: A -> Result<B>, s: seq<A>)
    requires |s| == 3 && f(s[0]).Ok? && f(s[1]).Err? && f(s[2]).Ok?
    ensures Successes(f, s) == [f(s[0]).value, f(s[2]).value]
  {
    var first, firstTwo := [s[0]], s[..2];
    assert Successes(f, first) == [f(s[0]).value] by { assert first[..0] == []; }
    assert Successes(f, firstTwo) == [f(s[0]).value] by { assert firstTwo[..1] == first; }
    assert s[..|s| - 1] == firstTwo;
  }

  /** The rows `save` appends for `bs`, one after the other, from rowid `first` on. */
  function Rows(bs: seq<Book>, first: int): (r: seq<BR.BookRow>)
    ensures |r| == |bs|
    ensures forall k :: 0 <= k < |bs| ==> r[k] == BR.RowOf(bs[k], first + k)
  {
    seq(|bs|, k requires 0 <= k < |bs| => BR.RowOf(bs[k], first + k))
  }

  lemma RowsSnoc(bs: seq<Book>, b: Book, first: int)
    ensures Rows(bs + [b], first) == Rows(bs, first) + [BR.RowOf(b, first + |bs|)]
  {
    var l, r := Rows(bs + [b], first), Rows(bs, first) + [BR.RowOf(b, first + |bs|)];
    assert forall k :: 0 <= k < |bs| ==> (bs + [b])[k] == bs[k];
    assert forall k :: 0 <= k < |l| ==> l[k] == r[k];
  }

  /** One more saved book: the table is the old one followed by the rows of the books saved so far. */
  lemma RowsStep(rows0: seq<BR.BookRow>, done: seq<Book>, b: Book, first: int, before: seq<BR.BookRow>, after: seq<BR.BookRow>)
    requires before == rows0 + Rows(done, first)
    requires after == before + [BR.RowOf(b, first + |done|)]
    ensures after == rows0 + Rows(done + [b], first)
  {
    RowsSnoc(done, b, first);
  }

  lemma SuccessesSnoc<A, B>(f: A -> Result<B>, s: seq<A>, i: nat)
    requires i < |s|
    ensures Successes(f, s[..i + 1]) == Successes(f, s[..i]) + (if f(s[i]).Ok? then [f(s[i]).value] else [])
  {
    assert s[..i + 1][..i] == s[..i];
  }

  /**
   * The loop of `scrapeData` that saves the scraped books: every candidate is tried,
   * in order; one that `make` (`Book.create`) rejects is skipped, and the loop goes on.
   */
  method SaveBooks(make: ScrapedBook -> Result<Book>, candidates: seq<ScrapedBook>, books: BR.SqliteBookRepository)
    returns (booksSaved: nat)
    requires books.Valid()
    modifies books
    ensures books.Valid()
    ensures booksSaved == |Successes(make, candidates)| && booksSaved <= |candidates|
    ensures books.lastRowId == old(books.lastRowId) + booksSaved
    ensures books.rows == old(books.rows) + Rows(Successes(make, candidates), old(books.lastRowId) + 1)
  {
    ghost var first := books.lastRowId + 1;
    booksSaved := 0;
    var i := 0;
    assert candidates[..0] == [];
    assert Rows([], first) == [];
    assert books.rows == old(books.rows) + [];
    while i < |candidates|
      invariant 0 <= i <= |candidates|
      invariant books.Valid()
      invariant booksSaved == |Successes(make, candidates[..i])|
      invariant books.lastRowId == first - 1 + booksSaved
      invariant books.rows == old(books.rows) + Rows(Successes(make, candidates[..i]), first)
    {
      var book := make(candidates[i]);
      ghost var done := Successes(make, candidates[..i]);
      SuccessesSnoc(make, candidates, i);
      if book.Ok? {
        ghost var before := books.rows;
        var _ := books.Save(book.value);
        RowsStep(old(books.rows), done, book.value, first, before, books.rows);
        booksSaved := booksSaved + 1;
      } else {
        assert Successes(make, candidates[..i + 1]) == done;
      }
      i := i + 1;
    }
    assert candidates[..i] == candidates;
  }

  /**
   * The existence check of `scrapeData` on the raw name: a stored row with exactly that
   * name is rebuilt (so its name goes through the guard, which may throw) and refused.
   */
  function NameLookup(guard: Guard, rows: seq<BG.GroupRow>, name: string): (r: Result<()>)
    ensures r.Ok? <==> BG.RowByName(rows, name).None?
    ensures (exists k :: 0 <= k < |rows| && rows[k].name == Str(name)) ==> r.Err?
  {
    BG.RowByNameIsExact(rows, name);
    match BG.RowByName(rows, name)
    case Some(row) =>
      (match NewGroupName(guard, row.name)
       case Err(m) => Err(m)
       case Ok(_) => Err(AlreadyExists(name)))
    case None => Ok(())
  }

  /** What the first half of `scrapeData` settles with for the requested name: the lookup, then the new `GroupName`. */
  function GroupOutcome(guard: Guard, rows: seq<BG.GroupRow>, name: string): (r: Result<GroupName>)
    ensures (forall v :: guard(v).Err?) ==> r.Err?
    ensures (exists k :: 0 <= k < |rows| && rows[k].name == Str(name)) ==> r.Err?
    ensures NameLookup(guard, rows, name).Err? ==> r == Err(NameLookup(guard, rows, name).message)
  {
    match NameLookup(guard, rows, name)
    case Err(m) => Err(m)
    case Ok(_) => NewGroupName(guard, Str(name))
  }

  /** With the intended guard, a name already stored verbatim is refused as a duplicate, and any other non-blank name is accepted. */
  lemma GroupOutcomeIntended(rows: seq<BG.GroupRow>, name: string)
    requires forall k :: 0 <= k < |rows| ==> rows[k].name.Str? && !AllSpace(rows[k].name.s)
    ensures (exists k :: 0 <= k < |rows| && rows[k].name == Str(name)) ==>
      GroupOutcome(IntendedGuard, rows, name) == Err(AlreadyExists(name))
    ensures (forall k :: 0 <= k < |rows| ==> rows[k].name != Str(name)) ==>
      (GroupOutcome(IntendedGuard, rows, name).Ok? <==> !AllSpace(name))
  {
    BG.RowByNameIsExact(rows, name);
    if BG.RowByName(rows, name).Some? {
      IntendedGroupName(BG.RowByName(rows, name).value.name);
    }
    IntendedGroupName(Str(name));
  }

  /** Lines 21-24 of `scrapeData`: `findByName` on the raw name, and the refusal of a stored name. */
  method CheckNameFree(guard: Guard, name: string, groups: BG.SqliteBookGroupRepository) returns (r: Result<()>)
    ensures r == NameLookup(guard, groups.rows, name)
  {
    var existing := groups.FindByName(guard, name);
    if existing.Err? {
      r := Err(existing.message);
    } else if existing.value.Some? {
      r := Err(AlreadyExists(name));
    } else {
      r := Ok(());
    }
  }

  /**
   * Lines 21-28 of `scrapeData`: refuse a stored name, create the group, save it. On
   * success the new row holds the cleaned name and no books, under the next rowid.
   */
  method CreateGroup(guard: Guard, name: string, now: int, groups: BG.SqliteBookGroupRepository) returns (r: Result<(int, GroupName)>)
    requires groups.Valid()
    modifies groups
    ensures groups.Valid()
    ensures GroupOutcome(guard, old(groups.rows), name).Err? ==>
      && r == Err(GroupOutcome(guard, old(groups.rows), name).message)
      && groups.rows == old(groups.rows) && groups.lastRowId == old(groups.lastRowId)
    ensures GroupOutcome(guard, old(groups.rows), name).Ok? ==>
      var g := GroupOutcome(guard, old(groups.rows), name).value;
      && r == Ok((old(groups.lastRowId) + 1, g)) && groups.lastRowId == old(groups.lastRowId) + 1
      && groups.rows == old(groups.rows) + [BG.GroupRow(old(groups.lastRowId) + 1, Tables.Bound(g.GetValue()), now, now, 0)]
  {
    var free := CheckNameFree(guard, name, groups);
    if free.Err? {
      r := Err(free.message);
      return;
    }
    var created := BookGroup.Create(guard, Str(name), now);
    if created.Err? {
      r := Err(created.message);
      return;
    }
    var savedGroup := groups.Save(created.value);
    r := Ok((groups.lastRowId, savedGroup.name));
  }

  /**
   * The `books` table after lines 31-50 of `scrapeData`: untouched when the scrape
   * fails, otherwise followed by one row per book `Book.create` accepts, from the
   * rowid after `last` on.
   */
  function BookRowsAfterScrape(p: UrlParser, scrapeBooks: Scraper, url: string, gid: int, now: int, rows: seq<BR.BookRow>, last: int): seq<BR.BookRow>
  {
    if scrapeBooks(url).Err? then rows
    else rows + Rows(Successes(MakeBook(p, gid, now), scrapeBooks(url).value), last + 1)
  }

  /** The last rowid of `books` after the same lines: `last` moved on by one per saved book. */
  function LastBookIdAfterScrape(p: UrlParser, scrapeBooks: Scraper, url: string, gid: int, now: int, last: int): int
  {
    if scrapeBooks(url).Err? then last
    else last + |Successes(MakeBook(p, gid, now), scrapeBooks(url).value)|
  }

  /**
   * Lines 31-50 of `scrapeData`: scrape the page, then save the books that can be built
   * into group `gid`; the number saved, or the scrape's error with nothing saved.
   */
  method ScrapeAndSave(p: UrlParser, scrapeBooks: Scraper, url: string, gid: int, now: int, books: BR.SqliteBookRepository)
    returns (r: Result<nat>)
    requires books.Valid()
    modifies books
    ensures books.Valid()
    ensures books.rows == BookRowsAfterScrape(p, scrapeBooks, url, gid, now, old(books.rows), old(books.lastRowId))
    ensures books.lastRowId == LastBookIdAfterScrape(p, scrapeBooks, url, gid, now, old(books.lastRowId))
    ensures scrapeBooks(url).Err? ==>
      r == Err(scrapeBooks(url).message) && books.rows == old(books.rows) && books.lastRowId == old(books.lastRowId)
    ensures scrapeBooks(url).Ok? ==>
      var saved := Successes(MakeBook(p, gid, now), scrapeBooks(url).value);
      && r == Ok(|saved|) && |saved| <= |scrapeBooks(url).value|
      && books.rows == old(books.rows) + Rows(saved, old(books.lastRowId) + 1)
      && books.lastRowId == old(books.lastRowId) + |saved|
  {
    var scraped := scrapeBooks(url);
    if scraped.Err? {
      r := Err(scraped.message);
      return;
    }
    var booksSaved := SaveBooks(MakeBook(p, gid, now), scraped.value, books);
    r := Ok(booksSaved);
  }

  /**
   * `scrapeData(req, res, next)`. A refused request, a stored name, a name the guard
   * rejects, a failed scrape: each ends in `Err` with the thrown message. The group is
   * saved before the scrape, so a failed scrape leaves it stored. On success the books
   * table grows by exactly the candidates `Book.create` accepts, in order, all in the
   * new group, and the response counts them.
   */
  method ScrapeData(isUri: string -> bool, p: UrlParser, guard: Guard, scrapeBooks: Scraper, body: Fields, now: int,
                    groups: BG.SqliteBookGroupRepository, books: BR.SqliteBookRepository)
    returns (r: Result<ScrapeResponse>)
    requires groups.Valid() && books.Valid()
    modifies groups, books
    ensures groups.Valid() && books.Valid()
    ensures ScrapeFromRequest(isUri, body).Err? ==>
      && r == Err(ScrapeFromRequest(isUri, body).message) && groups.rows == old(groups.rows) && books.rows == old(books.rows)
      && groups.lastRowId == old(groups.lastRowId) && books.lastRowId == old(books.lastRowId)
    ensures ScrapeFromRequest(isUri, body).Ok? ==>
      var req := ScrapeFromRequest(isUri, body).value;
      var g := GroupOutcome(guard, old(groups.rows), req.groupName);
      && (g.Err? ==>
            && r == Err(g.message) && groups.rows == old(groups.rows) && books.rows == old(books.rows)
            && groups.lastRowId == old(groups.lastRowId) && books.lastRowId == old(books.lastRowId))
      && (g.Ok? ==>
            var gid := old(groups.lastRowId) + 1;
            var scraped := scrapeBooks(req.url);
            && groups.rows == old(groups.rows) + [BG.GroupRow(gid, Tables.Bound(g.value.GetValue()), now, now, 0)]
            && groups.lastRowId == gid
            && books.rows == BookRowsAfterScrape(p, scrapeBooks, req.url, gid, now, old(books.rows), old(books.lastRowId))
            && books.lastRowId == LastBookIdAfterScrape(p, scrapeBooks, req.url, gid, now, old(books.lastRowId))
            && (scraped.Err? ==> r == Err(scraped.message) && books.rows == old(books.rows) && books.lastRowId == old(books.lastRowId))
            && (scraped.Ok? ==>
                  var saved := Successes(MakeBook(p, gid, now), scraped.value);
                  && books.rows == old(books.rows) + Rows(saved, old(books.lastRowId) + 1)
                  && books.lastRowId == old(books.lastRowId) + |saved|
                  && r == Ok(ScrapeResponse(201, gid, g.value, |saved|, SuccessMessage(|saved|)))
                  && |saved| <= |scraped.value|))
    ensures (forall v :: guard(v).Err?) ==> r.Err? && groups.rows == old(groups.rows) && books.rows == old(books.rows)
  {
    var request := ScrapeFromRequest(isUri, body);
    if request.Err? {
      r := Err(request.message);
      return;
    }
    var req := request.value;
    var group := CreateGroup(guard, req.groupName, now, groups);
    if group.Err? {
      r := Err(group.message);
      return;
    }
    var (gid, name) := group.value;
    var saved := ScrapeAndSave(p, scrapeBooks, req.url, gid, now, books);
    if saved.Err? {
      r := Err(saved.message);
      return;
    }
    r := Ok(ScrapeResponse(201, gid, name, saved.value, SuccessMessage(saved.value)));
  }

  /**
   * The existence check looks up the raw name while `save` stores the cleaned one, so a
   * name that differs from a stored name only in its spacing is not found, and the new
   * group is stored under the very same name as the old one.
   */
  lemma CleanedNameEscapesLookup(rows: seq<BG.GroupRow>, s: string, k: nat)
    requires 0 <= k < |rows| && rows[k].name == Str(Collapse(Trim(s)))
    requires '<' !in s && '&' !in s && !AllSpace(s)
    requires forall j :: 0 <= j < |rows| ==> rows[j].name != Str(s)
    ensures BG.RowByName(rows, s).None?
    ensures NewGroupName(IntendedGuard, Str(s)).Ok?
    ensures NewGroupName(IntendedGuard, Str(s)).value.GetValue() == rows[k].name
  {
    BG.RowByNameIsExact(rows, s);
    CleanPlainText(s);
    IntendedGroupName(Str(s));
  }

  /** The success message reads back the count: `parseInt` of its number is `booksScraped`. */
  lemma SuccessMessageCount(n: nat)
    ensures var m := SuccessMessage(n);
      && m[..21] == "Successfully scraped "
      && m[|m| - 6..] == " books"
      && ParseInt(m[21..|m| - 6]) == Some(n)
  {
    var m := SuccessMessage(n);
    assert m[21..|m| - 6] == NatToString(n);
    ParseIntOfNatToString(n);
  }
}
