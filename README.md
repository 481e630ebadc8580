# humble-archive book scraper, modelled in Dafny

This project models the core of the humble-archive service. The service fetches a web page, picks the book-like
elements out of it, and stores them as a named group of books in SQLite. It also serves paginated listings of the
groups and their books, and the client keeps a small store of notifications (toasts). The model covers:

- **Text normaliser** (`StringCleaner`). Tags are stripped, nine entities decoded, the text trimmed and whitespace
  runs collapsed; null comes back instead of "".
- **Value objects and entities.** `BaseValueObject`, `GroupName`, `BookTitle`, `EditionInfo`, `Url` and `ImageUrl`
  are validate-then-wrap constructors, written as functions returning `Result`. `Book` is a value; `BookGroup` is a
  class, because `updateBooksCount` changes it in place.
- **Request validators and the error classifier.** These are the Joi schemas of `ScrapeDataRequest` and
  `PaginationRequest`, and the first-substring-hit chain of `ErrorHandler.handle`.
- **Extraction engine** (`WebScrapingService`). A cascade of container selectors and first-match searches for the
  title, edition, image and link. Relative URLs are resolved, and one record is kept per element with a title.
- **Repositories.** Each SQLite table is a class holding the rows as a `seq` and the last rowid as a counter. The
  queries are written as `WHERE`, `ORDER BY created_at DESC` and `LIMIT/OFFSET` over that sequence.
- **Controllers.** `scrapeData` checks the name, creates the group, scrapes, and saves the books one by one,
  skipping those that fail. `getAllGroups` and `getGroupById` validate and page, with `totalPages` as the ceiling.
- **`DatabaseConnection`.** A lazily opened handle, the splitting of the schema into statements, and the
  error-tolerant statement loop.
- **Notification store.** An id counter and a list changed by push and splice.

Everything the code reaches outside itself is a parameter:

- **URL parser.** The WHATWG URL Standard parser (section 4.4, "URL parsing") is a function `UrlParser.parse`.
- **Joi's checks.** Joi's RFC 3986 URI check is `isUri`, and Joi's number conversion of a query string is `toNumber`.
- **The page.** The cheerio document is a `Document` of functions (`select`, `find`, `text`, `attr`). The HTTP
  fetch is a `Result<Page>`, and a fetched `Page` carries what `cheerio.load` makes of the body: a `Document`, or
  the error it throws. That error is raised inside `extractBookData`, so it is not prefixed.
- **Statements and the clock.** `db.exec` is an `Exec` function, and the clock is an integer `now`.
- **The name guard.** `BaseValueObject.isValidString`, which the `GroupName` constructor calls, is a `Guard`
  parameter. The code does not define it (see Findings).
- **The scraping service.** The controller's scraping service is a `Scraper` parameter, as in the source, which
  injects it. `ScrapingController.Service` wires it to the model of `WebScrapingService`.

Behaviour of the code worth noting, which the model keeps:

- **`clean` is not idempotent.** Entities are decoded after tags are removed, so `&lt;b&gt;` cleans to `<b>`, and
  cleaning that again gives null.
- **`Url` accepts any scheme.** `Url` accepts anything the URL parser accepts. Only `ImageUrl` requires http or https.
- **The name check uses the raw name.** The duplicate-name check looks up the raw request name, while `save` stores
  the cleaned name.
- **Extraction errors are not prefixed.** `scrapeBooks` returns the extraction's promise without `await`, so only
  a failed fetch gets the "Failed to scrape URL: " prefix; an extraction error reaches the caller as it is.

## Model

| member | source | states |
|---|---|---|
| Search.FirstSome | server/src/infrastructure/scrapers/WebScrapingService.js:93-101 | the first-match search of every selector cascade: None iff no key yields a value, otherwise the value of the first key that does, all earlier keys yielding none |
| Search.FirstSomeAt | server/src/infrastructure/scrapers/WebScrapingService.js:115-123 | the first key that yields a value decides the search |
| Text.Trim | server/src/domain/utils/StringCleaner.js:27 | `String.prototype.trim`: the result is a slice of the input with only whitespace cut at both ends, has no whitespace at either end, and is empty iff the input is all whitespace |
| Text.TrimIdempotent | server/src/domain/value-objects/BaseValueObject.js:5 | trimming twice is trimming once, which is why the extra `.trim()` after `clean` changes nothing |
| Text.Contains | server/src/application/middleware/ErrorHandler.js:12 | `includes`: true iff the pattern occurs at some position |
| Text.ToLower | server/src/infrastructure/scrapers/WebScrapingService.js:52 | `toLowerCase` on ASCII: same length, each letter lowered |
| Text.Split | server/src/infrastructure/database/DatabaseConnection.js:40 | `split` on one character: never empty, no piece holds the separator, and joining the pieces with it gives the input back |
| StringCleaner.StripTags | server/src/domain/utils/StringCleaner.js:17 | `replace(/<[^>]*>/g, '')`: no longer than the input, adds no character, leaves no `<` followed later by `>`, and leaves text without `<` alone |
| StringCleaner.ReplaceAll | server/src/domain/utils/StringCleaner.js:18-26 | a global literal replace never lengthens the text when the replacement is not longer, and changes nothing when the pattern's first character is absent |
| StringCleaner.Entity | server/src/domain/utils/StringCleaner.js:18-26 | each of the nine entities starts with `&` and decodes to no more characters than it has |
| StringCleaner.DecodeEntities | server/src/domain/utils/StringCleaner.js:18-26 | the nine replacements in order: never longer than the text, and a no-op on text without `&` |
| StringCleaner.DecodeWithoutAmpersand | server/src/domain/utils/StringCleaner.js:18-26 | text without `&` is left alone by the whole decoding chain |
| StringCleaner.Collapse | server/src/domain/utils/StringCleaner.js:30 | `replace(/\s+/g, ' ')`: no whitespace run remains, every whitespace left is a plain space, the ends keep their whitespace-ness, and the result is empty iff the input is |
| StringCleaner.CleanPipeline | server/src/domain/utils/StringCleaner.js:16-30 | the four steps in order are strip tags, decode entities, trim, collapse |
| StringCleaner.Clean | server/src/domain/utils/StringCleaner.js:10-33 | null for a falsy or non-string input; a non-null result is non-empty, trimmed, and free of whitespace runs, with plain spaces only |
| StringCleaner.CleanOf | server/src/domain/utils/StringCleaner.js:16-32 | for a non-empty string, null exactly when stripping and decoding leave only whitespace, otherwise the trimmed, collapsed text |
| StringCleaner.CleanPlainText | server/src/domain/utils/StringCleaner.js:16-32 | text without markup or entity characters comes back trimmed and collapsed |
| StringCleaner.CollapseNoSpace | server/src/domain/utils/StringCleaner.js:30 | text without whitespace is not changed by collapsing |
| StringCleaner.EncodedTagSurvives | server/src/domain/utils/StringCleaner.js:17-20 | tags go before entities, so `&lt;b&gt;` cleans to the literal `<b>` |
| StringCleaner.AmpersandDecodedFirst | server/src/domain/utils/StringCleaner.js:18-19 | `&amp;` is decoded first, so `&amp;lt;` ends as `<` |
| StringCleaner.NothingLeftIsNull | server/src/domain/utils/StringCleaner.js:17-32 | pure markup `<b></b>` and pure whitespace clean to null, never to "" |
| StringCleaner.CleanNotIdempotent | server/src/domain/utils/StringCleaner.js:17-32 | `clean` of the clean form of `&lt;b&gt;` is null, not `<b>` |
| StringCleaner.CleanMultiple | server/src/domain/utils/StringCleaner.js:40-42 | one cleaned entry per argument, the i-th being `clean` of the i-th |
| StringCleaner.CleanObject | server/src/domain/utils/StringCleaner.js:50-58 | same keys as the input; the listed own properties are replaced by their cleaned value (as null where `clean` gives null), all others copied unchanged |
| ValueObjects.NewBase | server/src/domain/value-objects/BaseValueObject.js:4-6 | the stored value is the cleaned input, or `undefined` (not null) when `clean` gives null, and a stored string has the clean shape |
| ValueObjects.BaseGettersReturnCleaned | server/src/domain/value-objects/BaseValueObject.js:12-18 | both getters return the stored value: the cleaned input or `undefined`, never null or "" |
| ValueObjects.BaseIsValid | server/src/domain/value-objects/BaseValueObject.js:8-10 | the abstract `isValid` throws "Method not implemented" for every argument |
| ValueObjects.NewGroupName | server/src/domain/value-objects/GroupName.js:4-10 | the guard runs first: its error propagates, a false verdict throws "Invalid group name", and only a true verdict builds the base value |
| ValueObjects.AsWrittenGroupNameThrows | server/src/domain/value-objects/GroupName.js:5 | with the guard as written, every construction throws the missing-function TypeError |
| ValueObjects.IntendedGroupName | server/src/domain/value-objects/GroupName.js:4-10 | with the intended guard, a name is built iff it is a string that is not all whitespace, and it holds the cleaned name |
| ValueObjects.NewBookTitle | server/src/domain/value-objects/BookTitle.js:2-11 | accepted iff a string that is not all whitespace, stored trimmed (a slice of the input); otherwise "Book title cannot be empty" |
| ValueObjects.TitleIsNotCleaned | server/src/domain/value-objects/BookTitle.js:6 | a trimmed title is stored exactly as given: no markup stripping |
| ValueObjects.NewEditionInfo | server/src/domain/value-objects/EditionInfo.js:2-16 | null for a falsy input, the trimmed text for a string, the `trim` TypeError for a truthy non-string; `hasValue` iff the input has non-space text |
| ValueObjects.BlankEditionIsEmptyString | server/src/domain/value-objects/EditionInfo.js:3-16 | a whitespace-only edition is stored as "" and has no value |
| ValueObjects.NewUrlValue | server/src/domain/value-objects/Url.js:2-16 | accepted iff the parser accepts it, whatever the scheme; stored verbatim; otherwise "Invalid URL format" |
| ValueObjects.UrlStoredVerbatim | server/src/domain/value-objects/Url.js:6 | the stored URL is the input, even where the parser's `href` differs |
| ValueObjects.NewImageUrl | server/src/domain/value-objects/ImageUrl.js:2-16 | a falsy input is stored unchecked; a truthy one is accepted iff it parses with protocol http: or https:; stored unchanged |
| ValueObjects.EmptyImageUrlHasValue | server/src/domain/value-objects/ImageUrl.js:3-28 | "" skips validation and then counts as having a value |
| WhatwgUrl.NewUrl | server/src/infrastructure/scrapers/WebScrapingService.js:152-155 | `new URL(input, base)` succeeds iff the parser accepts, and otherwise throws "Invalid URL" |
| Entities.NewBook | server/src/domain/entities/Book.js:7-15 | the four value objects are built in field order, the first failure's message is thrown, and a built book keeps id, group and time |
| Entities.BookFromScrapedFields | server/src/domain/entities/Book.js:7-15 | for scraped string-or-null fields, a book is built iff the title is non-blank, the image URL is falsy or http(s), and the source URL parses |
| Entities.CreateBook | server/src/domain/entities/Book.js:29-31 | `Book.create`: a null id and the current time, accepted exactly when the constructor accepts |
| Entities.BookJsonOfNewBook | server/src/domain/entities/Book.js:17-27 | `toJSON` of a built book gives the trimmed title and the URLs exactly as passed |
| Entities.BookGroup.New | server/src/domain/entities/BookGroup.js:3-9 | a rejected name throws the name's error and builds nothing; otherwise a fresh group with the given fields and a default count of 0 |
| Entities.BookGroup.Create | server/src/domain/entities/BookGroup.js:30-32 | a fresh group with a null id, no books and both dates now, or the name's error |
| Entities.BookGroup.UpdateBooksCount | server/src/domain/entities/BookGroup.js:11-14 | sets the count and the update time, and nothing else |
| Entities.BookGroup.GetBookCount | server/src/domain/entities/BookGroup.js:16-18 | the stored count, as the constructor or `updateBooksCount` last set it |
| Entities.BookGroup.ToJson | server/src/domain/entities/BookGroup.js:20-28 | the id, the unwrapped name, `bookCount` read through `getBookCount`, and the stored `createdAt` and `updatedAt` |
| Entities.AsWrittenCreateThrows | server/src/domain/entities/BookGroup.js:5-32 | as written, `BookGroup.create` always throws the missing-guard TypeError |
| Requests.CheckUrl | server/src/application/dto/ScrapeDataRequest.js:11-14 | accepted iff a non-empty string that is a URI; a missing url gives "URL is required", a non-URI "URL must be a valid URL" |
| Requests.CheckGroupName | server/src/application/dto/ScrapeDataRequest.js:15-19 | accepted iff a string of 1 to 255 characters; missing gives "Group name is required", too long the max message, and the min message never occurs |
| Requests.ScrapeFromRequest | server/src/application/dto/ScrapeDataRequest.js:9-31 | both rules pass iff accepted, with the strings unchanged; otherwise the first failing field's message, url first |
| Requests.AcceptedGroupNameBounds | server/src/application/dto/ScrapeDataRequest.js:15-30 | an accepted name is 1 to 255 characters long and reaches the controller untrimmed |
| Requests.PaginationRequest.GetOffset | server/src/application/dto/PaginationRequest.js:35-37 | `(page - 1) * limit`, non-negative for a page of at least 1 |
| Requests.NewPaginationRequest | server/src/application/dto/PaginationRequest.js:4-7 | the constructor `fromRequest` ends with: stores the given page and limit, defaults page 1 and limit 10 |
| Requests.CheckNumber | server/src/application/dto/PaginationRequest.js:11-21 | absent takes the default; otherwise accepted iff a safe integer of at least 1 (and at most the maximum); each failure throws its own message: not a number the base message, digits lost in conversion or a value beyond 2^53 − 1 Joi's default unsafe-number message, a fraction the integer message, below 1 the min message, above the maximum the max message |
| Requests.PaginationFromRequest | server/src/application/dto/PaginationRequest.js:9-33 | an accepted request has page ≥ 1 and limit in 1..100 and is built by the constructor, an empty query gives (1, 10), a failing page throws the page's message, and a valid page with a failing limit throws the limit's message |
| Requests.UnsafePageRefused | server/src/application/dto/PaginationRequest.js:11-15 | `?page=9007199254740993` is refused with `"page" must be a safe number`, not served as an empty page |
| Requests.OffsetOfAccepted | server/src/application/dto/PaginationRequest.js:35-37 | for an accepted request the offset is non-negative and one page short of `page * limit` |
| JsNumbers.ParseIntOfNatToString | server/src/application/controllers/ScrapingController.js:61 | `parseInt` reads back every count the controller renders into its message |
| JsNumbers.ParseIntIgnoresTrailingText | server/src/application/controllers/GroupsController.js:44-47 | an id followed by other text, like "12abc", is read as the number alone and not refused |
| JsNumbers.ParseIntOfNonDigit | server/src/application/controllers/GroupsController.js:44-47 | text starting with a non-digit is NaN, so the id is refused |
| JsNumbers.ParseIntHex | server/src/application/controllers/GroupsController.js:44 | a 0x prefix switches to hexadecimal: "0x1f" is group 31 |
| JsNumbers.NatToString | server/src/application/controllers/ScrapingController.js:61 | a count renders as decimal digits with no leading zero |
| JsNumbers.ParseInt | server/src/application/controllers/GroupsController.js:44 | `parseInt` with no radix: after leading whitespace, a sign and a 0x prefix (hexadecimal), NaN iff no digit follows; otherwise the value of the longest digit run, negative only after "-" |
| ErrorHandler.Classify | server/src/application/middleware/ErrorHandler.js:12-47 | the first rule, in order, whose word occurs in the message, case-sensitively; none for a missing message or no hit |
| ErrorHandler.Respond | server/src/application/middleware/ErrorHandler.js:12-59 | `success` is always false; with no hit status 500 and the internal code, otherwise the hit rule's status and code |
| ErrorHandler.Handle | server/src/application/middleware/ErrorHandler.js:2-60 | the status and body the classification calls for |
| ErrorHandler.DetailsOnlyForDatabase | server/src/application/middleware/ErrorHandler.js:41-57 | only a database error has `details`, holding the original message, and only it replaces the message; no hit is the 500 default |
| ErrorHandler.StatusCodeIgnored | server/src/application/middleware/ErrorHandler.js:2-60 | an attached status code plays no part in the response |
| ErrorHandler.ScrapeFailureIsInvalidUrl | server/src/application/middleware/ErrorHandler.js:18-28 | a wrapped scrape failure is INVALID_URL (or a validation error), never SCRAPING_FAILED |
| ErrorHandler.NotFound | server/src/application/middleware/ErrorHandler.js:62-66 | the unknown-route error carries status 404 and mentions "not found" |
| ErrorHandler.UnknownRouteResponse | server/src/application/middleware/ErrorHandler.js:30-66 | an unknown route is answered 404 GROUP_NOT_FOUND, unless its path holds a word tested earlier |
| WebScraping.FilterMentions | server/src/infrastructure/scrapers/WebScrapingService.js:51-54 | exactly the elements whose lower-cased text mentions book, title or edition; order and multiplicity are stated by `FilterMentionsAppend` |
| WebScraping.FilterMentionsAppend | server/src/infrastructure/scrapers/WebScrapingService.js:51-54 | filtering runs along the list: the mentions in `a + b` are those of `a` then those of `b`, each once, in order |
| WebScraping.FilterMentionsSnoc | server/src/infrastructure/scrapers/WebScrapingService.js:51-54 | one element more is kept at the end exactly when it mentions a book |
| WebScraping.Containers | server/src/infrastructure/scrapers/WebScrapingService.js:33-55 | the non-empty matches of the first book selector that has any, every earlier selector matching nothing; when none has, the fallback elements that mention a book |
| WebScraping.FindBookElements | server/src/infrastructure/scrapers/WebScrapingService.js:43-55 | the matches of the first book selector with any, otherwise the fallback filter |
| WebScraping.TitleBySelector | server/src/infrastructure/scrapers/WebScrapingService.js:94-99 | a selector's title is trimmed, non-empty and under 500 characters |
| WebScraping.FirstLine | server/src/infrastructure/scrapers/WebScrapingService.js:104-106 | the first non-blank trimmed line: non-empty, trimmed, no line break |
| WebScraping.ExtractTitle | server/src/infrastructure/scrapers/WebScrapingService.js:85-107 | a title is never empty or padded |
| WebScraping.TitleFromFirstSelector | server/src/infrastructure/scrapers/WebScrapingService.js:93-101 | the first selector with a title decides it, so it is under 500 characters |
| WebScraping.TitleFromText | server/src/infrastructure/scrapers/WebScrapingService.js:103-106 | without a selector title, the title is the first non-blank line, of any length |
| WebScraping.EditionBySelector | server/src/infrastructure/scrapers/WebScrapingService.js:116-121 | a selector's edition is trimmed and non-empty |
| WebScraping.FindEdition | server/src/infrastructure/scrapers/WebScrapingService.js:127-130 | the leftmost match of the edition pattern: none iff no position matches, otherwise an edition phrase starting at the first matching position |
| WebScraping.ExtractEdition | server/src/infrastructure/scrapers/WebScrapingService.js:109-133 | never ""; without a selector hit, the leftmost edition phrase of the lower-cased text (the selector branch is `EditionFromFirstSelector`) |
| WebScraping.EditionFromFirstSelector | server/src/infrastructure/scrapers/WebScrapingService.js:115-123 | the first edition selector whose first match has non-blank text decides the edition: it is that trimmed text |
| WebScraping.Resolve | server/src/infrastructure/scrapers/WebScrapingService.js:151-157 | "/x" becomes protocol//host of the page plus x, a value not starting with "http" is resolved against the page URL, anything else is kept; an unparsable URL throws |
| WebScraping.FirstTruthy | server/src/infrastructure/scrapers/WebScrapingService.js:148 | `src \|\| data-src \|\| data-lazy`: the first present, non-empty value |
| WebScraping.ExtractImageUrl | server/src/infrastructure/scrapers/WebScrapingService.js:135-163 | null without an image address, otherwise the first address resolved, or its error |
| WebScraping.ExtractSourceUrl | server/src/infrastructure/scrapers/WebScrapingService.js:165-191 | the page URL without a link, otherwise the first link resolved |
| WebScraping.RecordOf | server/src/infrastructure/scrapers/WebScrapingService.js:57-80 | the URL errors abort even without a title; a record is kept iff there is a title, and it carries the four extracted values |
| WebScraping.Collect | server/src/infrastructure/scrapers/WebScrapingService.js:57-82 | the `each` loop: Ok iff every element's outcome is, the first error aborts, at most one record per element |
| WebScraping.Kept | server/src/infrastructure/scrapers/WebScrapingService.js:72-79 | the elements that yield a record, each from the input, every such element present |
| WebScraping.KeptSnoc | server/src/infrastructure/scrapers/WebScrapingService.js:57-80 | one element more is kept at the end exactly when it yields a record |
| WebScraping.KeptAppend | server/src/infrastructure/scrapers/WebScrapingService.js:57-80 | the kept elements of `a + b` are those of `a` then those of `b`: records follow container order |
| WebScraping.CollectKept | server/src/infrastructure/scrapers/WebScrapingService.js:72-79 | one record per kept element, the k-th from the k-th |
| WebScraping.PrefixErrorIsFinal | server/src/infrastructure/scrapers/WebScrapingService.js:57-80 | once a prefix of the elements fails, the whole extraction fails with that error |
| WebScraping.Records | server/src/infrastructure/scrapers/WebScrapingService.js:57-82 | the extraction over the containers: Ok iff every element's URLs resolve, with at most one record per element |
| WebScraping.RecordsFollowTitles | server/src/infrastructure/scrapers/WebScrapingService.js:57-82 | a successful extraction has exactly one record per element with a title, in order, with that element's title |
| WebScraping.FirstUrlErrorAborts | server/src/infrastructure/scrapers/WebScrapingService.js:57-80 | a failed extraction fails with the error of the first element whose URL does not resolve |
| WebScraping.ExtractBookData | server/src/infrastructure/scrapers/WebScrapingService.js:27-83 | the loops compute the records of the containers |
| WebScraping.AfterFetch | server/src/infrastructure/scrapers/WebScrapingService.js:11-24 | a failed fetch is rethrown with the prefix, and a fetched body is handed to the extraction |
| WebScraping.ScrapeBooks | server/src/infrastructure/scrapers/WebScrapingService.js:10-28 | a failed fetch is rethrown with the "Failed to scrape URL: " prefix, and a body `cheerio.load` cannot parse settles with the parser's own message, unprefixed |
| WebScraping.ScrapeFetchedPage | server/src/infrastructure/scrapers/WebScrapingService.js:20-28 | a fetched body gives the parse error or the extraction's result unprefixed, with at most one record per container |
| Tables.Bound | server/src/infrastructure/database/SqliteBookRepository.js:17-24 | a bound parameter is NULL iff the value is `undefined` or `null`, and any other value is stored as it is |
| Tables.Where | server/src/infrastructure/database/SqliteBookRepository.js:57 | `WHERE`: exactly the rows that pass, no more rows than the table |
| Tables.WhereShrinks | server/src/infrastructure/database/SqliteBookGroupRepository.js:100-104 | filtering drops a row iff some row fails the test |
| Tables.FirstWhere | server/src/infrastructure/database/SqliteBookGroupRepository.js:42-60 | `stmt.get`: None iff no row passes, otherwise the first row that passes |
| Tables.MapRows | server/src/infrastructure/database/SqliteBookRepository.js:64-72 | `rows.map` with a throwing constructor: Ok iff every row builds, elementwise, otherwise the error of a failing row |
| Tables.MapPrefixFails | server/src/infrastructure/database/SqliteBookGroupRepository.js:88-97 | once a prefix fails to build, the whole map fails with the same error |
| Tables.InsertDesc | server/src/infrastructure/database/SqliteBookGroupRepository.js:82 | inserting into a descending table keeps it descending and adds exactly that row |
| Tables.SortDesc | server/src/infrastructure/database/SqliteBookGroupRepository.js:82 | `ORDER BY created_at DESC`: descending, and a permutation of the rows |
| Tables.Window | server/src/infrastructure/database/SqliteBookGroupRepository.js:83 | `LIMIT OFFSET`: at most `limit` rows, the rows from the offset on |
| Tables.PageShape | server/src/infrastructure/database/SqliteBookGroupRepository.js:71-86 | a page has at most `limit` rows of the table, newest first, the sorted rows from the offset on; beyond the end it is empty |
| Tables.PageCount | server/src/application/controllers/GroupsController.js:21 | `Math.ceil(total / limit)`: zero iff no rows, otherwise just enough pages of `limit` rows |
| Tables.LastPage | server/src/application/controllers/GroupsController.js:21 | page `totalPages` holds rows and the page after it holds none |
| BookGroupRepository.SetBooksCount | server/src/infrastructure/database/SqliteBookGroupRepository.js:29-32 | only `books_count` of the rows with that id changes |
| BookGroupRepository.RowByIdIsTheRow | server/src/infrastructure/database/SqliteBookGroupRepository.js:35-43 | with distinct ids, the row found is the one with that id, found iff present |
| BookGroupRepository.RowByNameIsExact | server/src/infrastructure/database/SqliteBookGroupRepository.js:53-61 | the name lookup is exact: found iff a stored name equals the argument |
| BookGroupRepository.SecondPageOfThree | server/src/infrastructure/database/SqliteBookGroupRepository.js:71-86 | with three groups, page 2 of size 1 is the second newest, and there are 3 pages |
| BookGroupRepository.SqliteBookGroupRepository.Save | server/src/infrastructure/database/SqliteBookGroupRepository.js:11-25 | appends one row under a fresh rowid, holding the unwrapped name (NULL when it is `undefined`), the dates and count 0, and sets the group's id |
| BookGroupRepository.SqliteBookGroupRepository.UpdateBooksCount | server/src/infrastructure/database/SqliteBookGroupRepository.js:27-33 | only the count of the row with that id changes |
| BookGroupRepository.SqliteBookGroupRepository.FindById | server/src/infrastructure/database/SqliteBookGroupRepository.js:35-51 | null without a row; otherwise a fresh group with the row's id, name, created and updated times and count 0 (the query does not read it), or the name's error |
| BookGroupRepository.SqliteBookGroupRepository.FindByName | server/src/infrastructure/database/SqliteBookGroupRepository.js:53-69 | as `findById`, for the first row whose stored name is exactly the argument: its id, name, both times and count 0 |
| BookGroupRepository.SqliteBookGroupRepository.FindAll | server/src/infrastructure/database/SqliteBookGroupRepository.js:71-98 | the page's rows rebuilt in order with all five fields, Ok iff every name builds; on error the message is the first failing row's |
| BookGroupRepository.SqliteBookGroupRepository.Delete | server/src/infrastructure/database/SqliteBookGroupRepository.js:100-104 | removes the rows with that id, true iff there was one |
| BookGroupRepository.SqliteBookGroupRepository.GetTotalCount | server/src/infrastructure/database/SqliteBookGroupRepository.js:106-110 | the number of rows |
| BookRepository.RowOf | server/src/infrastructure/database/SqliteBookRepository.js:17-24 | the stored row holds the unwrapped title, edition and source URL, the image URL with `undefined` bound as NULL, the group and the time |
| BookRepository.BookOfRow | server/src/infrastructure/database/SqliteBookRepository.js:40-48 | a rebuilt book has the row's id, group and time |
| BookRepository.NewBookIsValid | server/src/domain/entities/Book.js:7-15 | every book the constructor builds passes its own checks again |
| BookRepository.RowRoundTrip | server/src/infrastructure/database/SqliteBookRepository.js:17-48 | saving and reading back gives the same book with its new id |
| BookRepository.BlankEditionReadsBackNull | server/src/infrastructure/database/SqliteBookRepository.js:19-43 | a blank edition is stored as "" and read back as null |
| BookRepository.BookById | server/src/infrastructure/database/SqliteBookRepository.js:30-49 | null when no row has the id; otherwise the first row with the id, rebuilt as a book (or the constructor's error), and a found book has that id |
| BookRepository.SaveThenFindById | server/src/infrastructure/database/SqliteBookRepository.js:11-49 | a valid book saved under a fresh id is found again by that id, with only its id set (a non-blank edition) |
| BookRepository.CountInGroup | server/src/infrastructure/database/SqliteBookRepository.js:81-85 | the group's count is at most the number of rows |
| BookRepository.GroupPageShape | server/src/infrastructure/database/SqliteBookRepository.js:51-85 | a page holds only that group's books, newest first, no more than `limit` and no more than the group's count |
| BookRepository.SqliteBookRepository.Save | server/src/infrastructure/database/SqliteBookRepository.js:11-28 | appends the book's row under a fresh rowid and returns the book with that id |
| BookRepository.SqliteBookRepository.FindById | server/src/infrastructure/database/SqliteBookRepository.js:30-49 | the book of the row with that id, or null |
| BookRepository.SqliteBookRepository.FindByGroupId | server/src/infrastructure/database/SqliteBookRepository.js:51-73 | the group's page of rows, newest first, each rebuilt as a book |
| BookRepository.SqliteBookRepository.Delete | server/src/infrastructure/database/SqliteBookRepository.js:75-79 | removes the rows with that id, true iff there was one |
| BookRepository.SqliteBookRepository.GetCountByGroupId | server/src/infrastructure/database/SqliteBookRepository.js:81-85 | the number of the group's books |
| ScrapingController.ServiceOutcome | server/src/application/controllers/ScrapingController.js:12-31 | wired to the real service, a failed fetch reaches `next` prefixed, a body cheerio cannot load reaches it with cheerio's message, and a parsed page yields its containers' records |
| ScrapingController.Successes | server/src/application/controllers/ScrapingController.js:35-50 | no more books are saved than were scraped |
| ScrapingController.SuccessesSpec | server/src/application/controllers/ScrapingController.js:35-50 | all are saved iff all can be built, none when none can, and each saved book is built from some scraped record |
| ScrapingController.OneBadCandidateOfThree | server/src/application/controllers/ScrapingController.js:46-49 | a failing book is skipped and the others are saved, in order |
| ScrapingController.Rows | server/src/infrastructure/database/SqliteBookRepository.js:11-28 | the rows that successive saves append, under consecutive rowids |
| ScrapingController.SaveBooks | server/src/application/controllers/ScrapingController.js:34-50 | every candidate is tried in order; the table grows by exactly the rows of the books that can be built, and the counter counts them |
| ScrapingController.NameLookup | server/src/application/controllers/ScrapingController.js:21-24 | refused iff a stored name equals the raw name exactly |
| ScrapingController.GroupOutcome | server/src/application/controllers/ScrapingController.js:21-27 | a stored name or a throwing guard ends in an error, the lookup's error first |
| ScrapingController.GroupOutcomeIntended | server/src/application/controllers/ScrapingController.js:21-27 | with the intended guard, a stored name is refused as a duplicate and any other non-blank name accepted |
| ScrapingController.CheckNameFree | server/src/application/controllers/ScrapingController.js:21-24 | the lookup as `NameLookup` states it |
| ScrapingController.CreateGroup | server/src/application/controllers/ScrapingController.js:21-28 | on success one group row with the cleaned name and no books, under the next rowid, which becomes the last rowid; on error the table and its last rowid are unchanged |
| ScrapingController.ScrapeAndSave | server/src/application/controllers/ScrapingController.js:31-50 | a failed scrape saves nothing and keeps the last rowid; otherwise the saved books are those that can be built, appended under the following rowids, and the last rowid moves on by their number |
| ScrapingController.ScrapeData | server/src/application/controllers/ScrapingController.js:15-69 | each error is thrown with its message; the group is stored before the scrape, under the next group rowid; on success the books table grows by exactly the buildable records and the response counts them; in each branch both tables' last rowids are stated (unchanged, or moved on by one group and by the number of saved books) |
| ScrapingController.CleanedNameEscapesLookup | server/src/application/controllers/ScrapingController.js:21-28 | a name that differs from a stored one only in spacing is not found, and is then stored under the same cleaned name |
| ScrapingController.SuccessMessageCount | server/src/application/controllers/ScrapingController.js:60-61 | the message's number reads back as `booksScraped` |
| GroupsController.Pagination | server/src/application/controllers/GroupsController.js:21-32 | page and limit echoed; `totalPages` is zero iff there are no items, otherwise just enough pages |
| GroupsController.LastGroupsPage | server/src/application/controllers/GroupsController.js:17-21 | page `totalPages` of the groups holds groups, the page after it none |
| GroupsController.GroupsJson | server/src/application/controllers/GroupsController.js:26 | one `toJSON()` per group, in order |
| GroupsController.BooksJson | server/src/application/controllers/GroupsController.js:73 | one `toJSON()` per book, in order |
| GroupsController.GetAllGroups | server/src/application/controllers/GroupsController.js:11-40 | a refused query throws its message; otherwise Ok iff every name on the page builds (else the first failing row's message), with one JSON per row carrying the row's fields, at most `limit` of them, and the pagination over all groups |
| GroupsController.GetGroupById | server/src/application/controllers/GroupsController.js:42-87 | an unreadable id throws "Invalid group ID" first, then a refused query, then "Group not found"; otherwise the group, the JSON of its page of books and the pagination over its books |
| GroupsController.DefaultBooksPage | server/src/application/controllers/GroupsController.js:50-59 | without page and limit, a group's books come ten at a time |
| DatabaseConnection.TrimEach | server/src/infrastructure/database/DatabaseConnection.js:41 | each piece trimmed, in order |
| DatabaseConnection.NonEmpty | server/src/infrastructure/database/DatabaseConnection.js:42 | exactly the non-empty pieces |
| DatabaseConnection.Statements | server/src/infrastructure/database/DatabaseConnection.js:39-42 | the statements of a schema: no more than the pieces between ";" (their shape and order in `StatementShape` and `StatementsAppend`) |
| DatabaseConnection.StatementShape | server/src/infrastructure/database/DatabaseConnection.js:39-42 | every statement is non-empty, trimmed and free of ";" |
| DatabaseConnection.StatementsAppend | server/src/infrastructure/database/DatabaseConnection.js:39-42 | cutting the schema at a ";" cuts the statement list there, in order |
| DatabaseConnection.OneStatement | server/src/infrastructure/database/DatabaseConnection.js:39-42 | text without ";" is one trimmed statement, or none when blank |
| DatabaseConnection.TerminatedStatement | server/src/infrastructure/database/DatabaseConnection.js:39-42 | a statement ending in ";" followed by whitespace is loaded alone |
| DatabaseConnection.Attempt | server/src/infrastructure/database/DatabaseConnection.js:46-47 | with no handle every statement throws the TypeError; with one, the statement's own outcome |
| DatabaseConnection.Warnings | server/src/infrastructure/database/DatabaseConnection.js:45-54 | at most one warning per statement (which ones in `WarningsAreUnignoredFailures`) |
| DatabaseConnection.WarningsAreUnignoredFailures | server/src/infrastructure/database/DatabaseConnection.js:45-54 | a message is warned about iff some statement failed with it and it lacks "already exists" |
| DatabaseConnection.WithoutHandleEveryStatementWarns | server/src/infrastructure/database/DatabaseConnection.js:45-54 | without a handle every statement is attempted and warned about |
| DatabaseConnection.Connection.Connect | server/src/infrastructure/database/DatabaseConnection.js:9-17 | opens a new handle with foreign keys on and holds it |
| DatabaseConnection.Connection.GetConnection | server/src/infrastructure/database/DatabaseConnection.js:19-24 | connects only without a handle, otherwise returns the held one |
| DatabaseConnection.Connection.Close | server/src/infrastructure/database/DatabaseConnection.js:26-31 | drops the handle, a no-op without one |
| DatabaseConnection.Connection.InitDatabase | server/src/infrastructure/database/DatabaseConnection.js:33-55 | every statement is attempted in order, and the warnings are the failures lacking "already exists" |
| DatabaseConnection.ConnectionIsReused | server/src/infrastructure/database/DatabaseConnection.js:19-24 | two calls without close return the same handle, opened at most once |
| DatabaseConnection.ReconnectAfterClose | server/src/infrastructure/database/DatabaseConnection.js:19-31 | after close a new, different handle is opened |
| NotificationStore.FindIndex | client/src/store/notification.js:29 | the position of the first entry with the id, or -1 exactly when there is none |
| NotificationStore.Removed | client/src/store/notification.js:28-33 | one entry shorter exactly when some entry has the id, and holds only entries of the old list |
| NotificationStore.RemovedIsFirstMatch | client/src/store/notification.js:28-33 | removing takes out exactly the first entry with the id, keeping the others in order, and is a no-op without one |
| NotificationStore.RemovedKeepsOrder | client/src/store/notification.js:28-33 | with increasing ids, no entry with the id remains and the order is kept |
| NotificationStore.RemoveUndoesAdd | client/src/store/notification.js:17-33 | the timer's removal of a just-added entry restores the list |
| NotificationStore.Store.constructor | client/src/store/notification.js:5-6 | an empty list, and the first id is 1 |
| NotificationStore.Store.AddNotification | client/src/store/notification.js:8-26 | returns the current `nextId` and increments it, appends exactly one entry, schedules a removal iff the duration is positive, and keeps ids increasing |
| NotificationStore.Store.RemoveNotification | client/src/store/notification.js:28-33 | the list becomes `Removed` of the old one; the counter stays |
| NotificationStore.Store.Success | client/src/store/notification.js:35 | adds an entry of type "success" |
| NotificationStore.Store.Error | client/src/store/notification.js:36 | adds an entry of type "error" |
| NotificationStore.Store.Info | client/src/store/notification.js:37 | adds an entry of type "info" |
| NotificationStore.Store.Warning | client/src/store/notification.js:38 | adds an entry of type "warning" |
| NotificationStore.TwoToasts | client/src/store/notification.js:6-17 | in a fresh store two toasts get ids 1 and 2, in order, the first of the default type "info" |

## Left out

- **I/O.** The HTTP fetch (axios, its timeout and headers), the HTML parser (cheerio), the file system, the SQLite
  driver, the console and Express are not modelled. Their results are parameters: a `Result<Page>`, the
  `Document` functions, the schema text, an `Exec` function.
- **Timers.** `setTimeout` is not modelled. `AddNotification` reports whether a removal was scheduled, and a timer
  firing is a later `RemoveNotification` with the id.
- **The clock.** `new Date()` and `Date.now()` are the integer `now`, one value per request: `ScrapeData` passes
  the same `now` to the group's two dates and to every `Book.create`. The books of one scrape therefore share a
  timestamp, and they read back in scrape order (see "Equal timestamps"). Dates are integers, so `toISOString` and
  `new Date(row.created_at)` are identities.
- **Extraction timing.** The extraction runs whether or not the fetch is awaited; asynchronous interleaving is not
  modelled.
- **SQLite constraints.** The schema file is not part of this model, so NOT NULL, UNIQUE and foreign-key constraints
  are not modelled; an `INSERT` always succeeds.
- **Row ids.** `Save` hands out the last rowid plus one, and `Delete` never moves that counter back, so ids are
  never reused, as with AUTOINCREMENT. A plain INTEGER PRIMARY KEY reuses max(rowid)+1 once the highest row is
  deleted; the schema is not part of this model, so that reuse is not modelled.
- **Bound parameters.** An `undefined` bound parameter is stored as NULL.
- **Equal timestamps.** `ORDER BY created_at DESC` keeps insertion order among equal timestamps, where SQLite
  leaves it open.
- **Joi.** Unknown keys, Joi's option handling and its error objects are left out. The message texts for the
  string type, empty and unsafe-number checks are Joi's defaults. Number conversion is the `toNumber` parameter,
  which says whether the text is a decimal number, loses digits as a double, or converts to a given number.
  `number.infinity` is left out: no query string converts to an infinite number, because Joi reports such text
  as unsafe first.
- **Integer width.** `parseInt` is exact for every digit string: numbers beyond 2^53 are not rounded.
- **Text.** JavaScript strings are sequences of characters, with no UTF-16 surrogate pairs. Lower-casing covers
  ASCII letters only.
- **ScrapingController.ScrapeData:** `savedGroup.books = scrapedBooks` only writes an in-memory object that is then
  dropped, so it is not modelled. The group's `books_count` is never updated by the controller, and the model keeps
  it 0 as the code does.
- **GroupsController.GetGroupById:** the `name` of the `group` block is the `GroupName` object itself, as in the
  code; its JSON serialisation (`{"value": ...}`) is not modelled.
- **WebScraping.ScrapeBooks:** its contract covers a failed fetch and a failed parse. A parsed page is covered by
  `ScrapeFetchedPage`, which keeps the extraction's records out of every caller's proof.
- **ScrapingController.Successes:** its contract bounds only the length. The all-or-none and provenance facts
  are in `SuccessesSpec`, for the same reason.
- **StringCleaner.Clean:** its contract does not say when the result is null. `CleanOf` states it, for the same
  reason.
- **NotificationStore.Store.AddNotification:** requires the store's invariant (increasing ids below `nextId`).
  The constructor establishes it and every method keeps it.
- **DatabaseConnection.Connection.InitDatabase:** the TypeError that `this.db.exec` throws without a handle is
  worded by the runtime. It is the `typeError` parameter rather than a fixed text.

## Findings

| source | as written | input that shows it | evidently intended | confidence | as-written member | corrected member |
|---|---|---|---|---|---|---|
| server/src/domain/value-objects/GroupName.js:5 | the constructor calls `BaseValueObject.isValidString`, which `BaseValueObject` does not define, so every `GroupName` (and every `BookGroup.create`, `findById`, `findByName`, `findAll`) throws a TypeError | any name, e.g. `new GroupName("Fiction")` | accept a string that is not all whitespace, otherwise throw "Invalid group name" | high, not executed | ValueObjects.AsWrittenGroupNameThrows | ValueObjects.IntendedGroupName |
