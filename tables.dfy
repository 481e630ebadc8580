/**
 * The in-memory stand-in for a SQLite table: rows in insertion order, and the query
 * parts the repositories use (`WHERE`, `stmt.get`'s first row, `ORDER BY ... DESC`,
 * `LIMIT ? OFFSET ?`).
 */
module Tables {
  import opened Wrappers
  import opened Js

  /** How a value is bound as an SQL parameter: `undefined` and `null` both become NULL. */
  function Bound(v: Value): (r: Value)
    ensures r.Null? <==> v.Undefined? || v.Null?
    ensures !v.Undefined? ==> r == v
  {
    if v.Undefined? then Null else v
  }

  /** `SELECT ... WHERE p`: the rows satisfying `p`, in table order. */
  function Where<T>(p: T -> bool, s: seq<T>): (r: seq<T>)
    ensures |r| <= |s|
    ensures forall k :: 0 <= k < |r| ==> p(r[k]) && r[k] in s
    ensures forall k :: 0 <= k < |s| && p(s[k]) ==> s[k] in r
  {
    if s == [] then []
    else
      var rest := Where(p, s[1..]);
      assert forall x :: x in s[1..] ==> x in s;
      assert forall k :: 1 <= k < |s| ==> s[k] == s[1..][k - 1];
      if p(s[0]) then [s[0]] + rest else rest
  }

  /** Filtering out nothing keeps the table as it is. */
  lemma {:induction false} WhereAll<T>(p: T -> bool, s: seq<T>)
    requires forall k :: 0 <= k < |s| ==> p(s[k])
    ensures Where(p, s) == s
  {
    if s != [] {
      WhereAll(p, s[1..]);
    }
  }

  /** Filtering drops a row exactly when some row fails the test. */
  lemma {:induction false} WhereShrinks<T>(p: T -> bool, s: seq<T>)
    ensures |Where(p, s)| < |s| <==> exists k :: 0 <= k < |s| && !p(s[k])
  {
    if s != [] {
      WhereShrinks(p, s[1..]);
      if !p(s[0]) {
        assert !p(s[0]);
      } else {
        assert forall k :: 1 <= k < |s| ==> s[k] == s[1..][k - 1];
        if exists k :: 0 <= k < |s| && !p(s[k]) {
          var k :| 0 <= k < |s| && !p(s[k]);
          assert !p(s[1..][k - 1]);
        }
      }
    }
  }

  /** `stmt.get(...)`: the first row satisfying `p`, or None (`undefined`). */
  function FirstWhere<T>(p: T -> bool, s: seq<T>): (r: Option<T>)
    ensures r.None? <==> forall k :: 0 <= k < |s| ==> !p(s[k])
    ensures r.Some? ==> exists k :: 0 <= k < |s| && s[k] == r.value && p(r.value) && forall j :: 0 <= j < k ==> !p(s[j])
  {
    if s == [] then None
    else if p(s[0]) then Some(s[0])
    else
      var r := FirstWhere(p, s[1..]);
      assert forall k :: 1 <= k < |s| ==> s[k] == s[1..][k - 1];
      assert r.Some? ==> exists k :: 0 <= k < |s| && s[k] == r.value && p(r.value) && forall j :: 0 <= j < k ==> !p(s[j]) by {
        if r.Some? {
          var k :| 0 <= k < |s| - 1 && s[1..][k] == r.value && p(r.value) && forall j :: 0 <= j < k ==> !p(s[1..][j]);
          assert s[k + 1] == r.value;
        }
      }
      r
  }

  /** Appending a row that passes the test to rows that all fail it makes it the first match. */
  lemma FirstWhereLast<T>(p: T -> bool, s: seq<T>, x: T)
    requires forall k :: 0 <= k < |s| ==> !p(s[k])
    requires p(x)
    ensures FirstWhere(p, s + [x]) == Some(x)
  {
    var all := s + [x];
    assert all[|s|] == x;
    assert forall k :: 0 <= k < |s| ==> all[k] == s[k];
  }

  /** `rows.map(f)` where `f` may throw: the first row that fails throws out of the map. */
  function MapRows<A, B>(f: A -> Result<B>, s: seq<A>): (r: Result<seq<B>>)
    ensures r.Ok? <==> forall k :: 0 <= k < |s| ==> f(s[k]).Ok?
    ensures r.Ok? ==> |r.value| == |s| && forall k :: 0 <= k < |s| ==> r.value[k] == f(s[k]).value
    ensures r.Err? ==> exists k :: 0 <= k < |s| && f(s[k]) == Err(r.message)
  {
    if s == [] then Ok([])
    else
      var init := s[..|s| - 1];
      assert forall k :: 0 <= k < |init| ==> init[k] == s[k];
      match MapRows(f, init)
      case Err(m) => Err(m)
      case Ok(done) =>
        match f(s[|s| - 1])
        case Err(m) => Err(m)
        case Ok(b) => Ok(done + [b])
  }

  /** One more row mapped: a map that has succeeded so far extends by the row's value. */
  lemma MapRowsStep<A, B>(f: A -> Result<B>, s: seq<A>, i: nat, done: seq<B>)
    requires i < |s| && MapRows(f, s[..i]) == Ok(done) && f(s[i]).Ok?
    ensures MapRows(f, s[..i + 1]) == Ok(done + [f(s[i]).value])
  {
    assert s[..i + 1][..i] == s[..i];
  }

  /** Once a prefix of the rows fails to map, the whole map fails with the same error. */
  lemma {:induction false} MapPrefixFails<A, B>(f: A -> Result<B>, s: seq<A>, n: nat)
    requires n <= |s| && MapRows(f, s[..n]).Err?
    ensures MapRows(f, s) == MapRows(f, s[..n])
    decreases |s| - n
  {
    if n == |s| {
      assert s[..n] == s;
    } else {
      assert s[..n + 1][..n] == s[..n];
      MapPrefixFails(f, s, n + 1);
    }
  }

  /** No two rows share a key. */
  ghost predicate DistinctKeys<T>(key: T -> int, s: seq<T>)
  {
    forall i, j :: 0 <= i < j < |s| ==> key(s[i]) != key(s[j])
  }

  /** Filtering keeps keys distinct. */
  lemma {:induction false} WhereKeepsDistinct<T>(key: T -> int, p: T -> bool, s: seq<T>)
    requires DistinctKeys(key, s)
    ensures DistinctKeys(key, Where(p, s))
  {
    if s != [] {
      assert DistinctKeys(key, s[1..]) by {
        forall i, j | 0 <= i < j < |s| - 1 ensures key(s[1..][i]) != key(s[1..][j]) {
          assert s[1..][i] == s[i + 1] && s[1..][j] == s[j + 1];
        }
      }
      WhereKeepsDistinct(key, p, s[1..]);
      var rest := Where(p, s[1..]);
      if p(s[0]) {
        forall k | 0 <= k < |rest| ensures key(rest[k]) != key(s[0]) {
          var j :| 0 <= j < |s[1..]| && s[1..][j] == rest[k];
          assert s[j + 1] == rest[k];
        }
      }
    }
  }

  /** `s` is in descending order of `key`. */
  predicate SortedDesc<T>(key: T -> int, s: seq<T>)
  {
    forall i, j :: 0 <= i < j < |s| ==> key(s[i]) >= key(s[j])
  }

  /** A row whose key is at least every key of a sorted table can go in front of it. */
  lemma ConsSorted<T>(key: T -> int, a: T, rest: seq<T>)
    requires SortedDesc(key, rest)
    requires forall k :: 0 <= k < |rest| ==> key(a) >= key(rest[k])
    ensures SortedDesc(key, [a] + rest)
  {
    var r := [a] + rest;
    forall i, j | 0 <= i < j < |r| ensures key(r[i]) >= key(r[j]) {
      assert r[j] == rest[j - 1];
      if i > 0 {
        assert r[i] == rest[i - 1];
      }
    }
  }

  /** The first row of a sorted table has the largest key. */
  lemma HeadIsLargest<T>(key: T -> int, s: seq<T>, y: T)
    requires SortedDesc(key, s) && s != [] && y in s[1..]
    ensures key(s[0]) >= key(y)
  {
    var m :| 0 <= m < |s[1..]| && s[1..][m] == y;
    assert s[m + 1] == y;
  }

  /** Puts `x` in front of the first row whose key is not larger than its own. */
  function InsertDesc<T>(key: T -> int, x: T, s: seq<T>): (r: seq<T>)
    requires SortedDesc(key, s)
    ensures |r| == |s| + 1
    ensures forall y :: y in r ==> y == x || y in s
    ensures SortedDesc(key, r)
    ensures multiset(r) == multiset(s) + multiset{x}
  {
    if s == [] || key(x) >= key(s[0]) then [x] + s
    else
      var rest := InsertDesc(key, x, s[1..]);
      assert s == [s[0]] + s[1..];
      forall k | 0 <= k < |rest| ensures key(s[0]) >= key(rest[k]) {
        if rest[k] != x {
          assert rest[k] in rest;
          HeadIsLargest(key, s, rest[k]);
        }
      }
      ConsSorted(key, s[0], rest);
      [s[0]] + rest
  }

  /**
   * `ORDER BY key DESC`: the same rows, newest first. Rows with equal keys keep their
   * table order (SQLite leaves that order open; the model fixes one).
   */
  function SortDesc<T>(key: T -> int, s: seq<T>): (r: seq<T>)
    ensures SortedDesc(key, r)
    ensures multiset(r) == multiset(s)
    ensures |r| == |s|
  {
    if s == [] then []
    else
      assert s == [s[0]] + s[1..];
      InsertDesc(key, s[0], SortDesc(key, s[1..]))
  }

  /** Where `LIMIT limit OFFSET offset` starts: a negative offset counts as none. */
  function WindowStart(n: nat, offset: int): (i: nat)
    ensures i <= n
  {
    if offset < 0 then 0 else if offset < n then offset else n
  }

  /**
   * `LIMIT limit OFFSET offset`: the rows from position `offset` on, at most `limit` of
   * them; a negative limit means no limit.
   */
  function Window<T>(s: seq<T>, offset: int, limit: int): (r: seq<T>)
    ensures limit >= 0 ==> |r| <= limit
    ensures |r| <= |s| - WindowStart(|s|, offset)
    ensures forall k :: 0 <= k < |r| ==> r[k] == s[WindowStart(|s|, offset) + k]
    ensures limit >= 0 && WindowStart(|s|, offset) + limit <= |s| ==> |r| == limit
    ensures (limit < 0 || WindowStart(|s|, offset) + limit > |s|) ==> |r| == |s| - WindowStart(|s|, offset)
  {
    var start := WindowStart(|s|, offset);
    var end := if limit < 0 || start + limit > |s| then |s| else start + limit;
    s[start..end]
  }

  /** A window of a table in descending order: in order, and the table's rows from `offset` on. */
  lemma WindowOfSorted<T>(key: T -> int, t: seq<T>, offset: int, limit: int)
    requires SortedDesc(key, t) && offset >= 0 && limit >= 0
    ensures var r := Window(t, offset, limit);
      && SortedDesc(key, r)
      && (offset < |t| && limit > 0 ==> |r| >= 1)
      && (offset >= |t| ==> r == [])
      && (forall k :: 0 <= k < |r| ==> offset + k < |t| && r[k] == t[offset + k])
  {
    var r := Window(t, offset, limit);
    if offset < |t| {
      assert WindowStart(|t|, offset) == offset;
    }
  }

  /**
   * `ORDER BY key DESC LIMIT limit OFFSET offset`: at most `limit` rows, all of them rows
   * of the table, newest first, and they are the sorted table's rows from `offset` on.
   */
  lemma PageShape<T>(key: T -> int, s: seq<T>, offset: int, limit: int)
    requires offset >= 0 && limit >= 0
    ensures var r := Window(SortDesc(key, s), offset, limit);
      && |r| <= limit
      && (forall k :: 0 <= k < |r| ==> r[k] in multiset(s))
      && SortedDesc(key, r)
      && (offset < |s| && limit > 0 ==> |r| >= 1)
      && (offset >= |s| ==> r == [])
      && (forall k :: 0 <= k < |r| ==> r[k] == SortDesc(key, s)[offset + k])
  {
    var sorted := SortDesc(key, s);
    WindowOfSorted(key, sorted, offset, limit);
    var r := Window(sorted, offset, limit);
    forall k | 0 <= k < |r| ensures r[k] in multiset(s) {
      assert r[k] in multiset(sorted);
    }
  }

  /** The number of pages `Math.ceil(total / limit)`, for a non-negative total and a positive limit. */
  function PageCount(total: int, limit: int): (n: int)
    requires total >= 0 && limit >= 1
    ensures n >= 0
    ensures total == 0 <==> n == 0
    ensures total > 0 ==> (n - 1) * limit < total <= n * limit
  {
    var n := (total + limit - 1) / limit;
    assert n * limit <= total + limit - 1 < (n + 1) * limit;
    n
  }

  /** The last page, number `PageCount`, holds rows, and the page after it holds none. */
  lemma LastPage<T>(key: T -> int, s: seq<T>, limit: int)
    requires limit >= 1 && |s| > 0
    ensures var n := PageCount(|s|, limit);
      && |Window(SortDesc(key, s), (n - 1) * limit, limit)| >= 1
      && Window(SortDesc(key, s), n * limit, limit) == []
  {
    var n := PageCount(|s|, limit);
    var last, next := (n - 1) * limit, n * limit;
    assert last < |s| <= next;
    assert last >= 0 by {
      assert n - 1 >= 0;
    }
    PageShape(key, s, last, limit);
    PageShape(key, s, next, limit);
  }
}
