/**
 * `DatabaseConnection` (server/src/infrastructure/database/DatabaseConnection.js): the
 * process-wide holder of the SQLite handle, opened lazily and dropped on close, and the
 * schema loader that cuts `schema.sql` into statements and runs each one, tolerating
 * "already exists" failures. The file system, the driver and the console are outside the
 * model: the schema text is a parameter, `exec` is an oracle, and the warnings that would
 * be logged are returned.
 */
module DatabaseConnection {
  import opened Wrappers
  import opened Text

  /**
   * An open `better-sqlite3` database. `serial` tells apart the handles of successive
   * `connect()` calls; `foreignKeys` records the `foreign_keys` pragma.
   */
  datatype Handle = Handle(serial: nat, foreignKeys: bool)

  /** `db.exec(statement)` on an open handle: None when it ran, Some(message) when it threw. */
  type Exec = (Handle, string) -> Option<string>

  /** The failures `initDatabase` stays silent about. */
  const AlreadyExists := "already exists"

  // ---------------------------------------------------------------- statements

  /** `stmts.map(stmt => stmt.trim())`. */
  function TrimEach(pieces: seq<string>): (r: seq<string>)
    ensures |r| == |pieces|
    ensures forall i :: 0 <= i < |pieces| ==> r[i] == Trim(pieces[i])
  {
    seq(|pieces|, i requires 0 <= i < |pieces| => Trim(pieces[i]))
  }

  /** `stmts.filter(stmt => stmt.length > 0)`. */
  function NonEmpty(pieces: seq<string>): (r: seq<string>)
    ensures |r| <= |pieces|
    ensures forall s :: s in r <==> s in pieces && s != []
  {
    if pieces == [] then []
    else if pieces[0] == [] then NonEmpty(pieces[1..])
    else [pieces[0]] + NonEmpty(pieces[1..])
  }

  /**
   * The statements of a schema: the text split on ";", each piece trimmed, the empty
   * ones dropped, in their order in the text.
   */
  function Statements(schema: string): (r: seq<string>)
    ensures |r| <= |Split(schema, ';')|
  {
    NonEmpty(TrimEach(Split(schema, ';')))
  }

  /** Trimming only cuts characters off, so it adds no `c`. */
  lemma TrimAddsNothing(p: string, c: char)
    requires c !in p
    ensures c !in Trim(p)
  {
    var t := Trim(p);
    var k :| TrimSplit(p, t, k);
    assert forall j :: 0 <= j < |t| ==> t[j] == p[k + j];
  }

  /** Every statement is non-empty, has no whitespace at either end and holds no ";". */
  lemma StatementShape(schema: string)
    ensures forall s :: s in Statements(schema) ==> s != [] && Trimmed(s) && ';' !in s
  {
    var pieces := Split(schema, ';');
    forall s | s in Statements(schema) ensures s != [] && Trimmed(s) && ';' !in s {
      var i :| 0 <= i < |pieces| && s == TrimEach(pieces)[i];
      TrimAddsNothing(pieces[i], ';');
    }
  }

  lemma {:induction false} SplitAppend(a: string, b: string, sep: char)
    ensures Split(a + [sep] + b, sep) == Split(a, sep) + Split(b, sep)
    decreases |a|
  {
    var s := a + [sep] + b;
    if a == [] {
      assert s[1..] == b;
    } else {
      assert s[1..] == a[1..] + [sep] + b;
      SplitAppend(a[1..], b, sep);
    }
  }

  lemma {:induction false} SplitWithoutSeparator(s: string, sep: char)
    requires sep !in s
    ensures Split(s, sep) == [s]
  {
    if s != [] {
      SplitWithoutSeparator(s[1..], sep);
    }
  }

  lemma {:induction false} NonEmptyAppend(x: seq<string>, y: seq<string>)
    ensures NonEmpty(x + y) == NonEmpty(x) + NonEmpty(y)
  {
    if x == [] {
      assert x + y == y;
    } else {
      var xy := x + y;
      assert xy != [] && xy[0] == x[0];
      assert xy[1..] == x[1..] + y;
      NonEmptyAppend(x[1..], y);
      if x[0] == [] {
        assert NonEmpty(xy) == NonEmpty(xy[1..]);
      } else {
        assert NonEmpty(xy) == [x[0]] + NonEmpty(xy[1..]);
      }
    }
  }

  lemma TrimEachAppend(x: seq<string>, y: seq<string>)
    ensures TrimEach(x + y) == TrimEach(x) + TrimEach(y)
  {
  }

  /** Cutting the schema at a ";" cuts its statement list there: the pieces on each side are loaded in order. */
  lemma StatementsAppend(a: string, b: string)
    ensures Statements(a + ";" + b) == Statements(a) + Statements(b)
  {
    SplitAppend(a, b, ';');
    TrimEachAppend(Split(a, ';'), Split(b, ';'));
    NonEmptyAppend(TrimEach(Split(a, ';')), TrimEach(Split(b, ';')));
  }

  /** Text without a ";" is one statement, its trimmed self, unless it is only whitespace, which gives none. */
  lemma OneStatement(s: string)
    requires ';' !in s
    ensures Statements(s) == if AllSpace(s) then [] else [Trim(s)]
  {
    SplitWithoutSeparator(s, ';');
    assert TrimEach([s]) == [Trim(s)];
  }

  /** A statement terminated by ";" and followed by whitespace, as at the end of a schema file, is loaded alone. */
  lemma TerminatedStatement(stmt: string, tail: string)
    requires ';' !in stmt && ';' !in tail && AllSpace(tail) && !AllSpace(stmt)
    ensures Statements(stmt + ";" + tail) == [Trim(stmt)]
  {
    StatementsAppend(stmt, tail);
    OneStatement(stmt);
    OneStatement(tail);
  }

  // ---------------------------------------------------------------- initDatabase

  /** An error message that `initDatabase` ignores. */
  predicate Ignored(message: string)
  {
    Contains(message, AlreadyExists)
  }

  /**
   * Running one statement on the held handle. With no handle, reading `exec` of null
   * throws a TypeError, whose message (`typeError`, worded by the runtime) is caught like any other.
   */
  function Attempt(exec: Exec, typeError: string, db: Option<Handle>, statement: string): (r: Option<string>)
    ensures db.None? ==> r == Some(typeError)
    ensures db.Some? ==> r == exec(db.value, statement)
  {
    match db
    case None => Some(typeError)
    case Some(h) => exec(h, statement)
  }

  /** The warnings `initDatabase` logs for `statements`, in order: the messages of the failures that are not ignored. */
  function Warnings(exec: Exec, typeError: string, db: Option<Handle>, statements: seq<string>): (r: seq<string>)
    ensures |r| <= |statements|
  {
    if statements == [] then []
    else
      var init := Warnings(exec, typeError, db, statements[..|statements| - 1]);
      match Attempt(exec, typeError, db, statements[|statements| - 1])
      case Some(m) => if Ignored(m) then init else init + [m]
      case None => init
  }

  /**
   * A message is warned about exactly when some statement failed with it and it does not
   * mention "already exists"; when every statement runs or fails with "already exists", nothing is logged.
   */
  lemma {:induction false} WarningsAreUnignoredFailures(exec: Exec, typeError: string, db: Option<Handle>, statements: seq<string>)
    ensures forall m :: m in Warnings(exec, typeError, db, statements) <==>
      exists i :: 0 <= i < |statements| && Attempt(exec, typeError, db, statements[i]) == Some(m) && !Ignored(m)
  {
    if statements != [] {
      var init := statements[..|statements| - 1];
      WarningsAreUnignoredFailures(exec, typeError, db, init);
      assert forall i :: 0 <= i < |init| ==> init[i] == statements[i];
    }
  }

  /** Without a handle every statement throws the same TypeError, and unless its message mentions "already exists", each one is warned about. */
  lemma {:induction false} WithoutHandleEveryStatementWarns(exec: Exec, typeError: string, statements: seq<string>)
    requires !Ignored(typeError)
    ensures var w := Warnings(exec, typeError, None, statements);
      |w| == |statements| && forall k :: 0 <= k < |w| ==> w[k] == typeError
  {
    if statements != [] {
      WithoutHandleEveryStatementWarns(exec, typeError, statements[..|statements| - 1]);
    }
  }

  // ---------------------------------------------------------------- the connection

  /** The singleton `dbConnection`: `db` is the held handle, `connects` counts the `connect()` calls so far. */
  class Connection {
    var db: Option<Handle>
    var connects: nat

    /** The held handle is one of those opened so far. */
    predicate Valid()
      reads this
    {
      db.Some? ==> db.value.serial < connects
    }

    /** `new DatabaseConnection()`: no handle yet. */
    constructor()
      ensures db == None && connects == 0 && Valid()
    {
      db := None;
      connects := 0;
    }

    /** `connect()`: opens a new handle with foreign keys on, holds it and returns it. */
    method Connect() returns (h: Handle)
      modifies this
      ensures h == Handle(old(connects), true)
      ensures db == Some(h) && connects == old(connects) + 1 && Valid()
    {
      h := Handle(connects, true);
      db := Some(h);
      connects := connects + 1;
    }

    /** `getConnection()`: the held handle, connecting first only when there is none. */
    method GetConnection() returns (h: Handle)
      modifies this
      ensures old(db).Some? ==> h == old(db).value && db == old(db) && connects == old(connects)
      ensures old(db).None? ==> h == Handle(old(connects), true) && db == Some(h) && connects == old(connects) + 1
      ensures old(Valid()) ==> Valid()
    {
      if db.None? {
        var _ := Connect();
      }
      h := db.value;
    }

    /** `close()`: drops the held handle, if any; a later `getConnection()` opens a new one. */
    method Close()
      modifies this
      ensures db == None && connects == old(connects) && Valid()
    {
      if db.Some? {
        db := None;
      }
    }

    /**
     * `initDatabase(schema)`: every statement of the schema is attempted in order, whatever
     * the earlier ones did, and the warnings are those `Warnings` describes.
     */
    method InitDatabase(exec: Exec, typeError: string, schema: string) returns (attempted: seq<string>, warnings: seq<string>)
      ensures attempted == Statements(schema)
      ensures warnings == Warnings(exec, typeError, db, attempted)
    {
      var statements := Statements(schema);
      attempted, warnings := [], [];
      for i := 0 to |statements|
        invariant attempted == statements[..i]
        invariant warnings == Warnings(exec, typeError, db, attempted)
      {
        var outcome := Attempt(exec, typeError, db, statements[i]);
        assert (attempted + [statements[i]])[..i] == attempted;
        if outcome.Some? && !Ignored(outcome.value) {
          warnings := warnings + [outcome.value];
        }
        attempted := attempted + [statements[i]];
      }
      assert statements[..|statements|] == statements;
    }
  }

  /** Two `getConnection()` calls with no `close()` between them return the same handle, connects once. */
  method ConnectionIsReused(c: Connection) returns (first: Handle, second: Handle)
    modifies c
    ensures first == second && c.db == Some(first)
    ensures c.connects == old(c.connects) + (if old(c.db).None? then 1 else 0)
  {
    first := c.GetConnection();
    second := c.GetConnection();
  }

  /** After `close()`, `getConnection()` opens a fresh handle, distinct from every earlier one. */
  method ReconnectAfterClose(c: Connection) returns (before: Handle, after: Handle)
    requires c.Valid()
    modifies c
    ensures before != after && after.serial == c.connects - 1
  {
    before := c.GetConnection();
    c.Close();
    after := c.GetConnection();
  }
}
