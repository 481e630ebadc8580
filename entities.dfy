/**
 * The two entities of the domain layer (server/src/domain/entities): a `Book`, built
 * once from four value objects, and a `BookGroup`, whose book count is updated in place.
 * Dates are integer timestamps handed in by the caller.
 */
module Entities {
  import opened Wrappers
  import opened Js
  import opened WhatwgUrl
  import opened ValueObjects

  // ---------------------------------------------------------------- Book

  /** A `Book`; `id` is None (null) until the repository assigns one. */
  datatype Book = Book(
    id: Option<int>, title: BookTitle, edition: EditionInfo, imageUrl: ImageUrl, sourceUrl: Url,
    groupId: int, createdAt: int)

  /** The plain object `toJSON` returns: the unwrapped value objects and the other fields. */
  datatype BookJson = BookJson(
    id: Option<int>, title: string, edition: Option<string>, imageUrl: Value, sourceUrl: string,
    groupId: int, createdAt: int)

  /**
   * `new Book(...)`: the value objects are built in field order (title, edition, image
   * URL, source URL), so the error is that of the first field that throws.
   */
  function NewBook(p: UrlParser, id: Option<int>, title: Value, edition: Value, imageUrl: Value, sourceUrl: Value,
                   groupId: int, createdAt: int): (r: Result<Book>)
    ensures r.Ok? <==> NewBookTitle(title).Ok? && NewEditionInfo(edition).Ok? && NewImageUrl(p, imageUrl).Ok?
                       && NewUrlValue(p, sourceUrl).Ok?
    ensures NewBookTitle(title).Err? ==> r == Err(NewBookTitle(title).message)
    ensures NewBookTitle(title).Ok? && NewEditionInfo(edition).Err? ==> r == Err(NewEditionInfo(edition).message)
    ensures NewBookTitle(title).Ok? && NewEditionInfo(edition).Ok? && NewImageUrl(p, imageUrl).Err? ==>
              r == Err(NewImageUrl(p, imageUrl).message)
    ensures (NewBookTitle(title).Ok? && NewEditionInfo(edition).Ok? && NewImageUrl(p, imageUrl).Ok? &&
             NewUrlValue(p, sourceUrl).Err?) ==> r == Err(NewUrlValue(p, sourceUrl).message)
    ensures r.Ok? ==> r.value.id == id && r.value.groupId == groupId && r.value.createdAt == createdAt
  {
    match NewBookTitle(title)
    case Err(m) => Err(m)
    case Ok(t) =>
      match NewEditionInfo(edition)
      case Err(m) => Err(m)
      case Ok(e) =>
        match NewImageUrl(p, imageUrl)
        case Err(m) => Err(m)
        case Ok(i) =>
          match NewUrlValue(p, sourceUrl)
          case Err(m) => Err(m)
          case Ok(u) => Ok(Book(id, t, e, i, u, groupId, createdAt))
  }

  /**
   * For the string or null fields the scraper produces, a book is built exactly when the
   * title is not blank, the image URL is falsy or an http(s) URL, and the source URL parses:
   * the edition never fails.
   */
  lemma BookFromScrapedFields(p: UrlParser, title: Value, edition: Value, imageUrl: Value, sourceUrl: Value, groupId: int, now: int)
    requires edition.Str? || edition.Null?
    ensures NewBook(p, None, title, edition, imageUrl, sourceUrl, groupId, now).Ok? <==>
      && title.Str? && !Text.AllSpace(title.s)
      && (!Truthy(imageUrl) || IsHttpUrl(p, imageUrl))
      && IsValidUrl(p, sourceUrl)
  {
  }

  /** `Book.create`: a new book, with a null id and the creation time `now`. */
  function CreateBook(p: UrlParser, title: Value, edition: Value, imageUrl: Value, sourceUrl: Value, groupId: int, now: int): (r: Result<Book>)
    ensures r.Ok? ==> r.value.id.None? && r.value.createdAt == now && r.value.groupId == groupId
    ensures r.Ok? <==> NewBook(p, None, title, edition, imageUrl, sourceUrl, groupId, now).Ok?
  {
    NewBook(p, None, title, edition, imageUrl, sourceUrl, groupId, now)
  }

  /** `Book.prototype.toJSON`. */
  function BookToJson(b: Book): BookJson
  {
    BookJson(b.id, b.title.GetValue(), b.edition.GetValue(), b.imageUrl.GetValue(), b.sourceUrl.GetValue(),
             b.groupId, b.createdAt)
  }

  /** `toJSON` of a freshly built book gives back the trimmed title and the URLs exactly as they were passed. */
  lemma BookJsonOfNewBook(p: UrlParser, id: Option<int>, title: Value, edition: Value, imageUrl: Value, sourceUrl: Value,
                          groupId: int, createdAt: int)
    requires NewBook(p, id, title, edition, imageUrl, sourceUrl, groupId, createdAt).Ok?
    ensures var j := BookToJson(NewBook(p, id, title, edition, imageUrl, sourceUrl, groupId, createdAt).value);
      && j.id == id && j.groupId == groupId && j.createdAt == createdAt
      && j.title == NewBookTitle(title).value.value
      && j.edition == NewEditionInfo(edition).value.value
      && j.imageUrl == imageUrl && sourceUrl == Str(j.sourceUrl)
  {
  }

  // ---------------------------------------------------------------- BookGroup

  /** The plain object `BookGroup.prototype.toJSON` returns. */
  datatype GroupJson = GroupJson(id: Option<int>, name: Value, bookCount: int, createdAt: int, updatedAt: int)

  /** A `BookGroup`; `id` is None (null) until the repository assigns one. */
  class BookGroup {
    var id: Option<int>
    var name: GroupName
    var createdAt: int
    var updatedAt: int
    var booksCount: int

    /** The field assignments of the constructor, once the name has been validated. */
    constructor (id: Option<int>, name: GroupName, createdAt: int, updatedAt: int, booksCount: int)
      ensures this.id == id && this.name == name && this.createdAt == createdAt
      ensures this.updatedAt == updatedAt && this.booksCount == booksCount
    {
      this.id := id;
      this.name := name;
      this.createdAt := createdAt;
      this.updatedAt := updatedAt;
      this.booksCount := booksCount;
    }

    /**
     * `new BookGroup(id, name, createdAt, updatedAt, booksCount = 0)`: wraps `name` in a
     * `GroupName` first, so a rejected name throws and no group exists.
     */
    static method New(guard: Guard, id: Option<int>, name: Value, createdAt: int, updatedAt: int, booksCount: int := 0)
      returns (r: Result<BookGroup>)
      ensures r.Err? <==> NewGroupName(guard, name).Err?
      ensures r.Err? ==> r.message == NewGroupName(guard, name).message
      ensures r.Ok? ==> fresh(r.value) && r.value.id == id && r.value.name == NewGroupName(guard, name).value
      ensures r.Ok? ==> r.value.createdAt == createdAt && r.value.updatedAt == updatedAt && r.value.booksCount == booksCount
    {
      match NewGroupName(guard, name)
      case Err(m) => r := Err(m);
      case Ok(n) =>
        var g := new BookGroup(id, n, createdAt, updatedAt, booksCount);
        r := Ok(g);
    }

    /** `BookGroup.create(name)`: a new group with a null id, no books, and both dates `now`. */
    static method Create(guard: Guard, name: Value, now: int) returns (r: Result<BookGroup>)
      ensures r.Err? <==> NewGroupName(guard, name).Err?
      ensures r.Err? ==> r.message == NewGroupName(guard, name).message
      ensures r.Ok? ==> fresh(r.value) && r.value.id.None? && r.value.booksCount == 0
      ensures r.Ok? ==> r.value.name == NewGroupName(guard, name).value && r.value.createdAt == now && r.value.updatedAt == now
    {
      r := New(guard, None, name, now, now);
    }

    /** `updateBooksCount(count)`: sets the count and the update time; id, name and creation time stay. */
    method UpdateBooksCount(count: int, now: int)
      modifies this
      ensures booksCount == count && updatedAt == now
      ensures id == old(id) && name == old(name) && createdAt == old(createdAt)
      ensures ToJson().bookCount == count
    {
      booksCount := count;
      updatedAt := now;
    }

    function GetBookCount(): (n: int)
      reads this
      ensures n == booksCount
    {
      booksCount
    }

    /** `toJSON`: the id, the unwrapped name, `bookCount` read through `getBookCount`, and both dates. */
    function ToJson(): (j: GroupJson)
      reads this
      ensures j.bookCount == GetBookCount() && j.name == name.GetValue() && j.id == id
      ensures j.createdAt == createdAt && j.updatedAt == updatedAt
    {
      GroupJson(id, name.GetValue(), GetBookCount(), createdAt, updatedAt)
    }
  }

  /** As written, `BookGroup.create` always throws the missing-guard TypeError. */
  method AsWrittenCreateThrows(name: Value, now: int) returns (r: Result<BookGroup>)
    ensures r == Err(MissingGuard)
  {
    r := BookGroup.Create(AsWrittenGuard, name, now);
  }
}
