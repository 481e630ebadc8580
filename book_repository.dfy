/**
 * `SqliteBookRepository` (server/src/infrastructure/database/SqliteBookRepository.js): the
 * `books` table, held as a sequence of rows in insertion order, with `lastInsertRowid`
 * as a counter that only grows. Rows are turned back into books through the `Book`
 * constructor, so through the value objects' checks.
 */
module BookRepository {
  import opened Wrappers
  import opened Js
  import opened Text
  import opened WhatwgUrl
  import opened ValueObjects
  import opened Entities
  import opened Tables

  /** A row of `books`: the unwrapped values of a book. */
  datatype BookRow = BookRow(
    id: int, title: string, edition: Option<string>, imageUrl: Value, sourceUrl: string, groupId: int, createdAt: int)

  function CreatedAt(row: BookRow): int
  {
    row.createdAt
  }

  function Id(row: BookRow): int
  {
    row.id
  }

  /** A nullable column read back as a JavaScript value. */
  function Column(v: Option<string>): Value
  {
    match v
    case Some(s) => Str(s)
    case None => Null
  }

  /** The row `save` inserts for `book` under rowid `id`. */
  function RowOf(book: Book, id: int): (row: BookRow)
    ensures row.id == id && row.groupId == book.groupId && row.createdAt == book.createdAt
    ensures row.title == book.title.GetValue() && row.sourceUrl == book.sourceUrl.GetValue()
    ensures row.edition == book.edition.GetValue()
    ensures book.imageUrl.GetValue() != Undefined ==> row.imageUrl == book.imageUrl.GetValue()
    ensures book.imageUrl.GetValue() == Undefined ==> row.imageUrl == Null
  {
    BookRow(id, book.title.GetValue(), book.edition.GetValue(), Bound(book.imageUrl.GetValue()),
            book.sourceUrl.GetValue(), book.groupId, book.createdAt)
  }

  /** `new Book(row.id, row.title, ...)`: a stored row rebuilt, through the value objects' checks. */
  function BookOfRow(p: UrlParser, row: BookRow): (r: Result<Book>)
    ensures r.Ok? ==> r.value.id == Some(row.id) && r.value.groupId == row.groupId && r.value.createdAt == row.createdAt
  {
    NewBook(p, Some(row.id), Str(row.title), Column(row.edition), row.imageUrl, Str(row.sourceUrl), row.groupId, row.createdAt)
  }

  /** What the `Book` constructor guarantees of the books it builds. */
  ghost predicate ValidBook(p: UrlParser, b: Book)
  {
    && b.title.value != [] && Trimmed(b.title.value)
    && (b.edition.value.Some? ==> Trimmed(b.edition.value.value))
    && (!Truthy(b.imageUrl.value) || IsHttpUrl(p, b.imageUrl.value))
    && b.imageUrl.value != Undefined
    && IsValidUrl(p, Str(b.sourceUrl.value))
  }

  /** Every book the constructor builds from string or null fields is valid. */
  lemma NewBookIsValid(p: UrlParser, id: Option<int>, title: Value, edition: Value, imageUrl: Value, sourceUrl: Value,
                       groupId: int, createdAt: int)
    requires imageUrl != Undefined
    requires NewBook(p, id, title, edition, imageUrl, sourceUrl, groupId, createdAt).Ok?
    ensures ValidBook(p, NewBook(p, id, title, edition, imageUrl, sourceUrl, groupId, createdAt).value)
  {
  }

  /**
   * Saving and reading back is the identity on valid books, up to the id that the table
   * assigns: the stored values pass the same checks again and come back unchanged.
   */
  lemma RowRoundTrip(p: UrlParser, b: Book, id: int)
    requires ValidBook(p, b) && b.edition.value != Some([])
    ensures BookOfRow(p, RowOf(b, id)) == Ok(b.(id := Some(id)))
  {
    TrimOfTrimmed(b.title.value);
    if b.edition.value.Some? {
      TrimOfTrimmed(b.edition.value.value);
    }
  }

  /** A blank edition is stored as "" and read back as null: that much does not round-trip. */
  lemma BlankEditionReadsBackNull(p: UrlParser, b: Book, id: int)
    requires ValidBook(p, b) && b.edition.value == Some([])
    ensures BookOfRow(p, RowOf(b, id)).Ok?
    ensures BookOfRow(p, RowOf(b, id)).value.edition == EditionInfo(None)
    ensures BookOfRow(p, RowOf(b, id)).value == b.(id := Some(id), edition := EditionInfo(None))
  {
    TrimOfTrimmed(b.title.value);
  }

  /** `findById`'s query and result: the book of the row with that id, or null. */
  function BookById(p: UrlParser, rows: seq<BookRow>, id: int): (r: Result<Option<Book>>)
    ensures (forall k :: 0 <= k < |rows| ==> rows[k].id != id) ==> r == Ok(None)
    ensures r.Ok? && r.value.Some? ==> r.value.value.id == Some(id)
    ensures (exists k :: 0 <= k < |rows| && rows[k].id == id) ==>
      exists k :: (&& 0 <= k < |rows| && rows[k].id == id && (forall j :: 0 <= j < k ==> rows[j].id != id)
                   && (BookOfRow(p, rows[k]).Ok? ==> r == Ok(Some(BookOfRow(p, rows[k]).value)))
                   && (BookOfRow(p, rows[k]).Err? ==> r == Err(BookOfRow(p, rows[k]).message)))
  {
    match FirstWhere(HasId(id), rows)
    case None => Ok(None)
    case Some(row) =>
      match BookOfRow(p, row)
      case Ok(b) => Ok(Some(b))
      case Err(m) => Err(m)
  }

  function HasId(id: int): BookRow -> bool
  {
    (row: BookRow) => row.id == id
  }

  function OtherId(id: int): BookRow -> bool
  {
    (row: BookRow) => row.id != id
  }

  function InGroup(groupId: int): BookRow -> bool
  {
    (row: BookRow) => row.groupId == groupId
  }

  /** A book saved under a fresh id is found again by that id, unchanged. */
  lemma SaveThenFindById(p: UrlParser, rows: seq<BookRow>, b: Book, id: int)
    requires forall k :: 0 <= k < |rows| ==> rows[k].id != id
    requires ValidBook(p, b) && b.edition.value != Some([])
    ensures BookById(p, rows + [RowOf(b, id)], id) == Ok(Some(b.(id := Some(id))))
  {
    var all := rows + [RowOf(b, id)];
    assert forall k :: 0 <= k < |rows| ==> !HasId(id)(all[k]);
    assert HasId(id)(all[|rows|]);
    FirstWhereLast(HasId(id), rows, RowOf(b, id));
    RowRoundTrip(p, b, id);
  }

  /** `findByGroupId`'s rows: that group's books, newest first, `LIMIT limit OFFSET (page - 1) * limit`. */
  function GroupRows(rows: seq<BookRow>, groupId: int, page: int, limit: int): seq<BookRow>
  {
    Window(SortDesc(CreatedAt, Where(InGroup(groupId), rows)), (page - 1) * limit, limit)
  }

  /** `getCountByGroupId`'s count: the books of the group. */
  function CountInGroup(rows: seq<BookRow>, groupId: int): (n: nat)
    ensures n <= |rows|
  {
    |Where(InGroup(groupId), rows)|
  }

  /**
   * A page of a group's books holds only that group's books, newest first, and no more of
   * them than the group has: the count is at least the length of any page.
   */
  lemma GroupPageShape(rows: seq<BookRow>, groupId: int, offset: int, limit: int)
    requires offset >= 0 && limit >= 0
    ensures var r := Window(SortDesc(CreatedAt, Where(InGroup(groupId), rows)), offset, limit);
      && |r| <= limit && |r| <= CountInGroup(rows, groupId)
      && (forall k :: 0 <= k < |r| ==> r[k].groupId == groupId && r[k] in rows)
      && SortedDesc(CreatedAt, r)
  {
    var mine := Where(InGroup(groupId), rows);
    var sorted := SortDesc(CreatedAt, mine);
    var r := Window(sorted, offset, limit);
    PageShape(CreatedAt, mine, offset, limit);
    forall k | 0 <= k < |r| ensures r[k].groupId == groupId && r[k] in rows {
      assert r[k] in multiset(mine);
      var j :| 0 <= j < |mine| && mine[j] == r[k];
      assert InGroup(groupId)(mine[j]);
    }
  }

  /** `rows.map(row => new Book(...))`, rebuilding each row as a book. */
  function Rebuild(p: UrlParser): BookRow -> Result<Book>
  {
    (row: BookRow) => BookOfRow(p, row)
  }

  class SqliteBookRepository {
    /** The rows of `books`, in insertion order. */
    var rows: seq<BookRow>
    /** The last rowid handed out. */
    var lastRowId: int

    ghost predicate Valid()
      reads this
    {
      && lastRowId >= 0
      && (forall k :: 0 <= k < |rows| ==> 0 < rows[k].id <= lastRowId)
      && DistinctKeys(Id, rows)
    }

    constructor ()
      ensures Valid() && rows == [] && lastRowId == 0
    {
      rows := [];
      lastRowId := 0;
    }

    /**
     * `save(book)`: inserts the unwrapped values, the group id and the creation time
     * under a fresh rowid, and returns the book with that id set.
     */
    method Save(book: Book) returns (saved: Book)
      requires Valid()
      modifies this
      ensures Valid()
      ensures lastRowId == old(lastRowId) + 1 && saved == book.(id := Some(lastRowId))
      ensures forall k :: 0 <= k < |old(rows)| ==> old(rows)[k].id != lastRowId
      ensures rows == old(rows) + [RowOf(book, lastRowId)]
    {
      lastRowId := lastRowId + 1;
      rows := rows + [RowOf(book, lastRowId)];
      saved := book.(id := Some(lastRowId));
    }

    /** `findById(id)`. */
    method FindById(p: UrlParser, id: int) returns (r: Result<Option<Book>>)
      ensures r == BookById(p, rows, id)
    {
      r := BookById(p, rows, id);
    }

    /** `findByGroupId(groupId, page = 1, limit = 20)`: the page's rows, each rebuilt as a book. */
    method FindByGroupId(p: UrlParser, groupId: int, page: int := 1, limit: int := 20) returns (r: Result<seq<Book>>)
      ensures r == MapRows(Rebuild(p), GroupRows(rows, groupId, page, limit))
    {
      var offset := (page - 1) * limit;
      var pageRows := Window(SortDesc(CreatedAt, Where(InGroup(groupId), rows)), offset, limit);
      var books: seq<Book> := [];
      var i := 0;
      while i < |pageRows|
        invariant 0 <= i <= |pageRows|
        invariant MapRows(Rebuild(p), pageRows[..i]) == Ok(books)
      {
        var b := Rebuild(p)(pageRows[i]);
        if b.Err? {
          r := Err(b.message);
          assert pageRows[..i + 1][..i] == pageRows[..i];
          MapPrefixFails(Rebuild(p), pageRows, i + 1);
          return;
        }
        MapRowsStep(Rebuild(p), pageRows, i, books);
        books := books + [b.value];
        i := i + 1;
      }
      assert pageRows[..i] == pageRows;
      r := Ok(books);
    }

    /** `delete(id)`: removes the row with that id; true iff there was one. */
    method Delete(id: int) returns (removed: bool)
      requires Valid()
      modifies this
      ensures Valid() && lastRowId == old(lastRowId)
      ensures removed <==> exists k :: 0 <= k < |old(rows)| && old(rows)[k].id == id
      ensures rows == Where(OtherId(id), old(rows))
    {
      var kept := Where(OtherId(id), rows);
      WhereShrinks(OtherId(id), rows);
      WhereKeepsDistinct(Id, OtherId(id), rows);
      removed := |kept| < |rows|;
      rows := kept;
    }

    /** `getCountByGroupId(groupId)`. */
    method GetCountByGroupId(groupId: int) returns (n: int)
      ensures n == CountInGroup(rows, groupId)
    {
      n := |Where(InGroup(groupId), rows)|;
    }
  }
}
