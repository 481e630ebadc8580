/**
 * `SqliteBookGroupRepository` (server/src/infrastructure/database/SqliteBookGroupRepository.js):
 * the `book_groups` table, held as a sequence of rows in insertion order, with
 * `lastInsertRowid` as a counter that only grows.
 */
module BookGroupRepository {
  import opened Wrappers
  import opened Js
  import opened ValueObjects
  import opened Entities
  import opened Tables

  /** A row of `book_groups`; `booksCount` starts at 0 and only `updateBooksCount` changes it. */
  datatype GroupRow = GroupRow(id: int, name: Value, createdAt: int, updatedAt: int, booksCount: int)

  function CreatedAt(row: GroupRow): int
  {
    row.createdAt
  }

  function Id(row: GroupRow): int
  {
    row.id
  }

  /** `UPDATE book_groups SET books_count = count WHERE id = id`. */
  function SetBooksCount(rows: seq<GroupRow>, id: int, count: int): (r: seq<GroupRow>)
    ensures |r| == |rows|
    ensures forall k :: 0 <= k < |rows| ==> r[k] == if rows[k].id == id then rows[k].(booksCount := count) else rows[k]
  {
    seq(|rows|, k requires 0 <= k < |rows| => if rows[k].id == id then rows[k].(booksCount := count) else rows[k])
  }

  /** `DELETE ... WHERE id = id` keeps the rows this test holds for. */
  function OtherId(id: int): GroupRow -> bool
  {
    (row: GroupRow) => row.id != id
  }

  /** `findById`'s query: the row with that id, if any. */
  function RowById(rows: seq<GroupRow>, id: int): Option<GroupRow>
  {
    FirstWhere((row: GroupRow) => row.id == id, rows)
  }

  /** `findByName`'s query: the first row whose stored name is exactly `name`. */
  function RowByName(rows: seq<GroupRow>, name: string): Option<GroupRow>
  {
    FirstWhere((row: GroupRow) => row.name == Str(name), rows)
  }

  /** `findAll`'s query: newest first, `LIMIT limit OFFSET (page - 1) * limit`. */
  function GroupsPage(rows: seq<GroupRow>, page: int, limit: int): seq<GroupRow>
  {
    Window(SortDesc(CreatedAt, rows), (page - 1) * limit, limit)
  }

  /** With distinct ids, the row found by id is the only row with that id, and it is found when present. */
  lemma RowByIdIsTheRow(rows: seq<GroupRow>, id: int)
    requires DistinctKeys(Id, rows)
    ensures RowById(rows, id).None? <==> forall k :: 0 <= k < |rows| ==> rows[k].id != id
    ensures forall k :: 0 <= k < |rows| && rows[k].id == id ==> RowById(rows, id) == Some(rows[k])
  {
    var p := (row: GroupRow) => row.id == id;
    assert forall k :: 0 <= k < |rows| ==> (p(rows[k]) <==> rows[k].id == id);
  }

  /** The name lookup is exact: a row is found iff some stored name equals the argument. */
  lemma RowByNameIsExact(rows: seq<GroupRow>, name: string)
    ensures RowByName(rows, name).Some? <==> exists k :: 0 <= k < |rows| && rows[k].name == Str(name)
    ensures RowByName(rows, name).Some? ==> RowByName(rows, name).value.name == Str(name) && RowByName(rows, name).value in rows
  {
    var p := (row: GroupRow) => row.name == Str(name);
    assert forall k :: 0 <= k < |rows| ==> (p(rows[k]) <==> rows[k].name == Str(name));
  }

  /** With three groups, page 2 of size 1 holds exactly the second newest. */
  lemma SecondPageOfThree(rows: seq<GroupRow>)
    requires |rows| == 3
    ensures GroupsPage(rows, 2, 1) == [SortDesc(CreatedAt, rows)[1]]
    ensures PageCount(|rows|, 1) == 3
  {
    PageShape(CreatedAt, rows, 1, 1);
  }

  class SqliteBookGroupRepository {
    /** The rows of `book_groups`, in insertion order. */
    var rows: seq<GroupRow>
    /** The last rowid handed out. */
    var lastRowId: int

    /** Every row id was handed out already, and no two rows share one. */
    ghost predicate Valid()
      reads this
    {
      && lastRowId >= 0
      && (forall k :: 0 <= k < |rows| ==> 0 < rows[k].id <= lastRowId)
      && DistinctKeys(Id, rows)
    }

    /** An empty table. */
    constructor ()
      ensures Valid() && rows == [] && lastRowId == 0
    {
      rows := [];
      lastRowId := 0;
    }

    /**
     * `save(bookGroup)`: inserts the group's unwrapped (cleaned) name, bound as NULL when it is
     * `undefined`, and its dates, with
     * `books_count` at its default 0, sets the new rowid on the group and returns it.
     */
    method Save(group: BookGroup) returns (saved: BookGroup)
      requires Valid()
      modifies this, group
      ensures Valid() && saved == group
      ensures lastRowId == old(lastRowId) + 1 && group.id == Some(lastRowId)
      ensures rows == old(rows) + [GroupRow(lastRowId, Bound(old(group.name).GetValue()), old(group.createdAt), old(group.updatedAt), 0)]
      ensures forall k :: 0 <= k < |old(rows)| ==> old(rows)[k].id != lastRowId
      ensures group.name == old(group.name) && group.createdAt == old(group.createdAt)
      ensures group.updatedAt == old(group.updatedAt) && group.booksCount == old(group.booksCount)
    {
      lastRowId := lastRowId + 1;
      rows := rows + [GroupRow(lastRowId, Bound(group.name.GetValue()), group.createdAt, group.updatedAt, 0)];
      group.id := Some(lastRowId);
      saved := group;
    }

    /** `updateBooksCount(id, count)`: changes `books_count` of the row with that id and nothing else. */
    method UpdateBooksCount(id: int, count: int)
      requires Valid()
      modifies this
      ensures Valid() && lastRowId == old(lastRowId)
      ensures rows == SetBooksCount(old(rows), id, count)
    {
      rows := SetBooksCount(rows, id, count);
    }

    /**
     * `findById(id)`: the group of the row with that id, rebuilt through the `BookGroup`
     * constructor (so through the name guard) without its `books_count`, which is not
     * selected and so falls back to 0; null when there is no such row.
     */
    method FindById(guard: Guard, id: int) returns (r: Result<Option<BookGroup>>)
      ensures RowById(rows, id).None? ==> r == Ok(None)
      ensures RowById(rows, id).Some? ==>
        var row := RowById(rows, id).value;
        && (r.Err? <==> NewGroupName(guard, row.name).Err?)
        && (r.Err? ==> r.message == NewGroupName(guard, row.name).message)
        && (r.Ok? ==> && r.value.Some? && fresh(r.value.value)
                      && r.value.value.id == Some(row.id) && r.value.value.name == NewGroupName(guard, row.name).value
                      && r.value.value.booksCount == 0
                      && r.value.value.createdAt == row.createdAt && r.value.value.updatedAt == row.updatedAt)
    {
      match RowById(rows, id)
      case None => r := Ok(None);
      case Some(row) =>
        var g := BookGroup.New(guard, Some(row.id), row.name, row.createdAt, row.updatedAt);
        r := if g.Ok? then Ok(Some(g.value)) else Err(g.message);
    }

    /** `findByName(name)`: as `findById`, for the first row whose stored name is exactly `name`. */
    method FindByName(guard: Guard, name: string) returns (r: Result<Option<BookGroup>>)
      ensures RowByName(rows, name).None? ==> r == Ok(None)
      ensures RowByName(rows, name).Some? ==>
        var row := RowByName(rows, name).value;
        && (r.Err? <==> NewGroupName(guard, row.name).Err?)
        && (r.Err? ==> r.message == NewGroupName(guard, row.name).message)
        && (r.Ok? ==> && r.value.Some? && fresh(r.value.value)
                      && r.value.value.id == Some(row.id) && r.value.value.name == NewGroupName(guard, row.name).value
                      && r.value.value.booksCount == 0
                      && r.value.value.createdAt == row.createdAt && r.value.value.updatedAt == row.updatedAt)
    {
      match RowByName(rows, name)
      case None => r := Ok(None);
      case Some(row) =>
        var g := BookGroup.New(guard, Some(row.id), row.name, row.createdAt, row.updatedAt);
        r := if g.Ok? then Ok(Some(g.value)) else Err(g.message);
    }

    /**
     * `findAll(page = 1, limit = 10)`: the rows of the page, each rebuilt as a group with
     * its stored `books_count`; the first name the guard rejects throws out of the `map`.
     */
    method FindAll(guard: Guard, page: int := 1, limit: int := 10) returns (r: Result<seq<BookGroup>>)
      ensures var pageRows := GroupsPage(rows, page, limit);
        && (r.Ok? <==> forall k :: 0 <= k < |pageRows| ==> NewGroupName(guard, pageRows[k].name).Ok?)
        && (r.Err? ==> exists k :: 0 <= k < |pageRows| && NewGroupName(guard, pageRows[k].name) == Err(r.message)
                          && forall j :: 0 <= j < k ==> NewGroupName(guard, pageRows[j].name).Ok?)
        && (r.Ok? ==> |r.value| == |pageRows|)
        && (r.Ok? ==> forall k :: 0 <= k < |pageRows| ==>
              && r.value[k].id == Some(pageRows[k].id)
              && r.value[k].name == NewGroupName(guard, pageRows[k].name).value
              && r.value[k].booksCount == pageRows[k].booksCount
              && r.value[k].createdAt == pageRows[k].createdAt && r.value[k].updatedAt == pageRows[k].updatedAt)
    {
      var offset := (page - 1) * limit;
      var pageRows := Window(SortDesc(CreatedAt, rows), offset, limit);
      assert pageRows == GroupsPage(rows, page, limit);
      var groups: seq<BookGroup> := [];
      var i := 0;
      while i < |pageRows|
        invariant 0 <= i <= |pageRows| && |groups| == i
        invariant forall k :: 0 <= k < i ==> NewGroupName(guard, pageRows[k].name).Ok?
        invariant forall k :: 0 <= k < i ==>
          && groups[k].id == Some(pageRows[k].id)
          && groups[k].name == NewGroupName(guard, pageRows[k].name).value
          && groups[k].booksCount == pageRows[k].booksCount
          && groups[k].createdAt == pageRows[k].createdAt && groups[k].updatedAt == pageRows[k].updatedAt
      {
        var row := pageRows[i];
        var g := BookGroup.New(guard, Some(row.id), row.name, row.createdAt, row.updatedAt, row.booksCount);
        if g.Err? {
          r := Err(g.message);
          return;
        }
        groups := groups + [g.value];
        i := i + 1;
      }
      r := Ok(groups);
    }

    /** `delete(id)`: removes the row with that id; true iff there was one. */
    method Delete(id: int) returns (removed: bool)
      requires Valid()
      modifies this
      ensures Valid() && lastRowId == old(lastRowId)
      ensures removed <==> exists k :: 0 <= k < |old(rows)| && old(rows)[k].id == id
      ensures rows == Where(OtherId(id), old(rows))
    {
      var p := OtherId(id);
      var kept := Where(p, rows);
      WhereShrinks(p, rows);
      assert DistinctKeys(Id, kept) by {
        WhereKeepsDistinct(Id, p, rows);
      }
      removed := |kept| < |rows|;
      rows := kept;
    }

    /** `getTotalCount()`: the number of rows. */
    method GetTotalCount() returns (n: int)
      ensures n == |rows|
    {
      n := |rows|;
    }
  }
}
