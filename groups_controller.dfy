/**
 * `GroupsController` (server/src/application/controllers/GroupsController.js): the two
 * read endpoints, the page of groups and one group with a page of its books. Both
 * validate the query as a `PaginationRequest` and report `totalPages` as the ceiling
 * of the item count over the page size. A thrown error handed to `next` is an `Err`
 * result; a written response is the `data` object of `Ok`.
 */
module GroupsController {
  import opened Wrappers
  import opened Js
  import opened WhatwgUrl
  import opened ValueObjects
  import opened Entities
  import opened Requests
  import opened Tables
  import opened JsNumbers
  import BG = BookGroupRepository
  import BR = BookRepository

  /** The `pagination` block of both responses. */
  datatype PaginationInfo = PaginationInfo(currentPage: int, totalPages: int, totalItems: int, itemsPerPage: int)

  /** The `data` of `getAllGroups`. */
  datatype GroupsPage = GroupsPage(groups: seq<GroupJson>, pagination: PaginationInfo)

  /** The `group` block of `getGroupById`: the id, the `GroupName` object itself, and the creation time. */
  datatype GroupSummary = GroupSummary(id: Option<int>, name: GroupName, createdAt: int)

  /** The `data` of `getGroupById`. */
  datatype GroupDetail = GroupDetail(group: GroupSummary, books: seq<BookJson>, pagination: PaginationInfo)

  const InvalidGroupId := "Invalid group ID"
  const GroupNotFound := "Group not found"

  /**
   * The `pagination` block: the validated page and limit echoed back, the item count,
   * and `Math.ceil(total / limit)` pages, just enough pages of `limit` items for them all.
   */
  function Pagination(req: PaginationRequest, total: nat): (info: PaginationInfo)
    requires req.limit >= 1
    ensures info.currentPage == req.page && info.itemsPerPage == req.limit && info.totalItems == total
    ensures total == 0 <==> info.totalPages == 0
    ensures total > 0 ==> (info.totalPages - 1) * req.limit < total <= info.totalPages * req.limit
  {
    PaginationInfo(req.page, PageCount(total, req.limit), total, req.limit)
  }

  /** Page `totalPages` of the groups holds groups, and the page after it holds none. */
  lemma LastGroupsPage(rows: seq<BG.GroupRow>, limit: int)
    requires limit >= 1 && |rows| > 0
    ensures var n := PageCount(|rows|, limit);
      && |BG.GroupsPage(rows, n, limit)| >= 1
      && BG.GroupsPage(rows, n + 1, limit) == []
  {
    LastPage(BG.CreatedAt, rows, limit);
  }

  /** `toJSON()` of a group rebuilt from `row` under the name `name`. */
  function RowJson(name: GroupName, row: BG.GroupRow): GroupJson
  {
    GroupJson(Some(row.id), name.GetValue(), row.booksCount, row.createdAt, row.updatedAt)
  }

  /** `groups.map(group => group.toJSON())`. */
  function GroupsJson(gs: seq<BookGroup>): (r: seq<GroupJson>)
    reads set k | 0 <= k < |gs| :: gs[k]
    ensures |r| == |gs|
    ensures forall k :: 0 <= k < |gs| ==> r[k] == gs[k].ToJson()
  {
    if gs == [] then []
    else [gs[0].ToJson()] + GroupsJson(gs[1..])
  }

  /** `books.map(book => book.toJSON())`. */
  function BooksJson(bs: seq<Book>): (r: seq<BookJson>)
    ensures |r| == |bs|
    ensures forall k :: 0 <= k < |bs| ==> r[k] == BookToJson(bs[k])
  {
    if bs == [] then []
    else [BookToJson(bs[0])] + BooksJson(bs[1..])
  }

  /**
   * `getAllGroups(req, res, next)`: a refused query throws its first message; otherwise
   * the page of groups, newest first, each as its `toJSON()`, with the pagination block
   * over all groups. A stored name the guard rejects throws out of the rebuilding.
   */
  method GetAllGroups(toNumber: string -> Conversion, guard: Guard, query: Fields, groups: BG.SqliteBookGroupRepository)
    returns (r: Result<GroupsPage>)
    ensures PaginationFromRequest(toNumber, query).Err? ==> r == Err(PaginationFromRequest(toNumber, query).message)
    ensures PaginationFromRequest(toNumber, query).Ok? ==>
      var req := PaginationFromRequest(toNumber, query).value;
      var rows := BG.GroupsPage(groups.rows, req.page, req.limit);
      && (r.Ok? <==> forall k :: 0 <= k < |rows| ==> NewGroupName(guard, rows[k].name).Ok?)
      && (r.Err? ==> exists k :: 0 <= k < |rows| && NewGroupName(guard, rows[k].name) == Err(r.message)
                        && forall j :: 0 <= j < k ==> NewGroupName(guard, rows[j].name).Ok?)
      && (r.Ok? ==>
            && |r.value.groups| == |rows| <= req.limit
            && (forall k :: 0 <= k < |rows| ==> r.value.groups[k] == RowJson(NewGroupName(guard, rows[k].name).value, rows[k]))
            && r.value.pagination == Pagination(req, |groups.rows|))
  {
    var pagination := PaginationFromRequest(toNumber, query);
    if pagination.Err? {
      r := Err(pagination.message);
      return;
    }
    var req := pagination.value;
    ghost var rows := BG.GroupsPage(groups.rows, req.page, req.limit);
    var found := groups.FindAll(guard, req.page, req.limit);
    if found.Err? {
      r := Err(found.message);
      return;
    }
    var totalCount := groups.GetTotalCount();
    assert |rows| <= req.limit by {
      assert req.GetOffset() >= 0;
      PageShape(BG.CreatedAt, groups.rows, (req.page - 1) * req.limit, req.limit);
    }
    r := Ok(GroupsPage(GroupsJson(found.value), Pagination(req, totalCount)));
  }

  /**
   * `getGroupById(req, res, next)`: an id that `parseInt` cannot read throws "Invalid
   * group ID" before the query is looked at; then a refused query throws its message;
   * a missing group throws "Group not found" before any book is read; otherwise the
   * group, the requested page of its books (newest first, `limit` from the query, 10
   * by default) and the pagination block over all of the group's books.
   */
  method GetGroupById(toNumber: string -> Conversion, p: UrlParser, guard: Guard, idParam: string, query: Fields,
                      groups: BG.SqliteBookGroupRepository, books: BR.SqliteBookRepository)
    returns (r: Result<GroupDetail>)
    ensures ParseInt(idParam).None? ==> r == Err(InvalidGroupId)
    ensures ParseInt(idParam).Some? && PaginationFromRequest(toNumber, query).Err? ==>
      r == Err(PaginationFromRequest(toNumber, query).message)
    ensures ParseInt(idParam).Some? && PaginationFromRequest(toNumber, query).Ok? ==>
      var id := ParseInt(idParam).value;
      var req := PaginationFromRequest(toNumber, query).value;
      && (BG.RowById(groups.rows, id).None? ==> r == Err(GroupNotFound))
      && (BG.RowById(groups.rows, id).Some? ==>
            var row := BG.RowById(groups.rows, id).value;
            var name := NewGroupName(guard, row.name);
            var page := MapRows(BR.Rebuild(p), BR.GroupRows(books.rows, id, req.page, req.limit));
            && (name.Err? ==> r == Err(name.message))
            && (name.Ok? && page.Err? ==> r == Err(page.message))
            && (name.Ok? && page.Ok? ==>
                  r == Ok(GroupDetail(GroupSummary(Some(row.id), name.value, row.createdAt), BooksJson(page.value),
                                      Pagination(req, BR.CountInGroup(books.rows, id))))))
  {
    var groupId := ParseInt(idParam);
    if groupId.None? {
      r := Err(InvalidGroupId);
      return;
    }
    var id := groupId.value;
    var pagination := PaginationFromRequest(toNumber, query);
    if pagination.Err? {
      r := Err(pagination.message);
      return;
    }
    var req := pagination.value;
    var group := groups.FindById(guard, id);
    if group.Err? {
      r := Err(group.message);
      return;
    }
    if group.value.None? {
      r := Err(GroupNotFound);
      return;
    }
    var g := group.value.value;
    var page := books.FindByGroupId(p, id, req.page, req.limit);
    if page.Err? {
      r := Err(page.message);
      return;
    }
    var totalBooks := books.GetCountByGroupId(id);
    r := Ok(GroupDetail(GroupSummary(g.id, g.name, g.createdAt), BooksJson(page.value), Pagination(req, totalBooks)));
  }

  /** Without `page` and `limit` in the query, a group's books come ten at a time, not the repository's twenty. */
  lemma DefaultBooksPage(toNumber: string -> Conversion, query: Fields, rows: seq<BR.BookRow>, groupId: int)
    requires Field(query, "page").Undefined? && Field(query, "limit").Undefined?
    ensures PaginationFromRequest(toNumber, query) == Ok(PaginationRequest(1, 10))
    ensures |BR.GroupRows(rows, groupId, 1, 10)| == if BR.CountInGroup(rows, groupId) < 10 then BR.CountInGroup(rows, groupId) else 10
  {
    var mine := Where(BR.InGroup(groupId), rows);
    assert |SortDesc(BR.CreatedAt, mine)| == |mine|;
  }
}
