/**
 * The `passwords` table of db_handler.py and the five SQL statements the
 * handler sends to it, as a pure function from a statement and the table's
 * state to the statement's outcome.
 *
 *   CREATE TABLE IF NOT EXISTS passwords (
 *     id INTEGER PRIMARY KEY, name TEXT NOT NULL, username TEXT NOT NULL,
 *     password TEXT NOT NULL, note TEXT)
 */
module PasswordsTable {

  import opened Wrappers
  import opened SqlLike

  /** One row, fields in column order; only `note` may be NULL. */
  datatype Row = Row(id: int, name: string, username: string, password: string, note: Option<string>)

  /** The database file either lacks the table or holds it with its rows in storage order. */
  datatype TableState = NoTable | Table(rows: seq<Row>)

  /**
   * A query together with its bound parameters. `Insert` carries the four
   * parameters as Python passes them (`None` binds NULL); `SelectWhereLike`
   * binds its one pattern to both `?` of `name LIKE ? OR username LIKE ?`.
   */
  datatype Statement =
    | CreateTableIfNotExists
    | SelectAll
    | SelectWhereLike(pattern: string)
    | Insert(name: Option<string>, username: Option<string>, password: Option<string>, note: Option<string>)
    | DeleteWhereId(id: int)

  /** A statement either raises `sqlite3.Error` or completes with a new table state and fetched rows. */
  datatype Outcome = Failed | Done(table: TableState, fetched: seq<Row>)

  /** The PRIMARY KEY constraint. */
  predicate UniqueIds(rows: seq<Row>)
  {
    forall i, j :: 0 <= i < j < |rows| ==> rows[i].id != rows[j].id
  }

  predicate HasId(rows: seq<Row>, id: int)
  {
    exists i :: 0 <= i < |rows| && rows[i].id == id
  }

  /** The largest id in a non-empty table. */
  function MaxId(rows: seq<Row>): (m: int)
    requires rows != []
    ensures forall i :: 0 <= i < |rows| ==> rows[i].id <= m
    ensures HasId(rows, m)
  {
    if |rows| == 1 then rows[0].id
    else
      var rest := MaxId(rows[1..]);
      assert forall i :: 1 <= i < |rows| ==> rows[i] == rows[1..][i - 1];
      if rows[0].id >= rest then rows[0].id else rest
  }

  /**
   * The id SQLite gives a row inserted without one into an INTEGER PRIMARY KEY
   * table without AUTOINCREMENT: one more than the largest id present, or 1
   * when the table is empty.
   */
  function NextId(rows: seq<Row>): (id: int)
    ensures !HasId(rows, id)
    ensures rows == [] ==> id == 1
  {
    if rows == [] then 1 else MaxId(rows) + 1
  }

  /** A row selected by `name LIKE p OR username LIKE p`. */
  predicate MatchesPattern(r: Row, pattern: string)
  {
    Like(pattern, r.name) || Like(pattern, r.username)
  }

  /** The rows a `SELECT * ... WHERE name LIKE p OR username LIKE p` scan returns. */
  function Matching(rows: seq<Row>, pattern: string): (r: seq<Row>)
    ensures |r| <= |rows|
    ensures forall x :: x in r <==> x in rows && MatchesPattern(x, pattern)
    ensures multiset(r) <= multiset(rows)
  {
    if rows == [] then []
    else
      var rest := Matching(rows[1..], pattern);
      assert rows == [rows[0]] + rows[1..];
      if MatchesPattern(rows[0], pattern) then [rows[0]] + rest else rest
  }

  /** The rows left by `DELETE FROM passwords WHERE id = ?`. */
  function Without(rows: seq<Row>, id: int): (r: seq<Row>)
    ensures |r| <= |rows|
    ensures forall x :: x in r <==> x in rows && x.id != id
    ensures multiset(r) <= multiset(rows)
  {
    if rows == [] then []
    else
      var rest := Without(rows[1..], id);
      assert rows == [rows[0]] + rows[1..];
      if rows[0].id == id then rest else [rows[0]] + rest
  }

  /** The effect and result of one statement. */
  function Execute(st: Statement, t: TableState): (o: Outcome)
    ensures o.Failed? <==>
      || (t.NoTable? && !st.CreateTableIfNotExists?)
      || (st.Insert? && (st.name.None? || st.username.None? || st.password.None?))
    ensures o.Done? ==> o.table.Table?
    ensures o.Done? && (st.SelectAll? || st.SelectWhereLike? || st.CreateTableIfNotExists?) && t.Table? ==> o.table == t
    ensures o.Done? && !st.SelectAll? && !st.SelectWhereLike? ==> o.fetched == []
  {
    match st
    case CreateTableIfNotExists =>
      if t.NoTable? then Done(Table([]), []) else Done(t, [])
    case SelectAll =>
      if t.NoTable? then Failed else Done(t, t.rows)
    case SelectWhereLike(pattern) =>
      if t.NoTable? then Failed else Done(t, Matching(t.rows, pattern))
    case Insert(name, username, password, note) =>
      if t.NoTable? || name.None? || username.None? || password.None? then Failed
      else
        var row := Row(NextId(t.rows), name.value, username.value, password.value, note);
        Done(Table(t.rows + [row]), [])
    case DeleteWhereId(id) =>
      if t.NoTable? then Failed else Done(Table(Without(t.rows, id)), [])
  }

  /** The PRIMARY KEY invariant holds of a table state. */
  predicate WellFormed(t: TableState)
  {
    t.Table? ==> UniqueIds(t.rows)
  }

  /**
   * What `execute_query` leaves in the file: the statement's new state when it
   * completes and is committed; the old state when the file cannot be used or
   * the statement raises (the error is swallowed and nothing is committed).
   */
  function TableAfter(st: Statement, t: TableState, accessible: bool): (t': TableState)
    ensures t' == t || (accessible && Execute(st, t) == Done(t', ResultOf(st, t, accessible)))
    ensures !accessible || Execute(st, t).Failed? ==> t' == t
    ensures accessible && Execute(st, t).Done? ==> t' == Execute(st, t).table
  {
    if !accessible then t
    else match Execute(st, t)
      case Failed => t
      case Done(t', _) => t'
  }

  /** What `execute_query` returns: the fetched rows, or `[]` after any error. */
  function ResultOf(st: Statement, t: TableState, accessible: bool): (r: seq<Row>)
    ensures !accessible || Execute(st, t).Failed? ==> r == []
  {
    if !accessible then []
    else match Execute(st, t)
      case Failed => []
      case Done(_, fetched) => fetched
  }

  /** The statement `get_passwords(filter_text)` sends: a LIKE filter only for a non-empty text. */
  function SelectFor(filterText: string): (st: Statement)
    ensures filterText == [] <==> st == SelectAll
  {
    if filterText == [] then SelectAll else SelectWhereLike("%" + filterText + "%")
  }

  // ---------------------------------------------------------------------
  // Properties of the statements
  // ---------------------------------------------------------------------

  lemma {:induction false} WithoutKeepsUniqueIds(rows: seq<Row>, id: int)
    requires UniqueIds(rows)
    ensures UniqueIds(Without(rows, id))
  {
    if rows != [] {
      var rest := Without(rows[1..], id);
      assert UniqueIds(rows[1..]) by {
        forall i, j | 0 <= i < j < |rows[1..]| ensures rows[1..][i].id != rows[1..][j].id {
          assert rows[1..][i] == rows[i + 1] && rows[1..][j] == rows[j + 1];
        }
      }
      WithoutKeepsUniqueIds(rows[1..], id);
      if rows[0].id != id {
        forall j | 0 <= j < |rest| ensures rows[0].id != rest[j].id {
          assert rest[j] in rows[1..];
          var k :| 0 <= k < |rows[1..]| && rows[1..][k] == rest[j];
          assert rows[k + 1] == rest[j];
        }
        var r := [rows[0]] + rest;
        forall i, j | 0 <= i < j < |r| ensures r[i].id != r[j].id {
          if i > 0 {
            assert r[i] == rest[i - 1] && r[j] == rest[j - 1];
          } else {
            assert r[j] == rest[j - 1];
          }
        }
      }
    }
  }

  /** Every statement keeps the PRIMARY KEY invariant. */
  lemma ExecuteKeepsUniqueIds(st: Statement, t: TableState, accessible: bool)
    requires WellFormed(t)
    ensures WellFormed(TableAfter(st, t, accessible))
  {
    if accessible && Execute(st, t).Done? && t.Table? {
      match st
      case Insert(_, _, _, _) =>
        var rows' := Execute(st, t).table.rows;
        var n := |t.rows|;
        forall i, j | 0 <= i < j < |rows'| ensures rows'[i].id != rows'[j].id {
          if j == n {
            assert rows'[i] == t.rows[i];
            assert rows'[j].id == NextId(t.rows);
          } else {
            assert rows'[i] == t.rows[i] && rows'[j] == t.rows[j];
          }
        }
      case DeleteWhereId(id) =>
        WithoutKeepsUniqueIds(t.rows, id);
      case _ =>
    }
  }

  /**
   * `CREATE TABLE IF NOT EXISTS` keeps every existing row, and running it a
   * second time changes nothing.
   */
  lemma CreateTableIdempotent(t: TableState, accessible: bool)
    ensures t.Table? ==> TableAfter(CreateTableIfNotExists, t, accessible) == t
    ensures var once := TableAfter(CreateTableIfNotExists, t, accessible);
            TableAfter(CreateTableIfNotExists, once, accessible) == once
    ensures accessible ==> TableAfter(CreateTableIfNotExists, t, accessible).Table?
  {
  }

  /**
   * A completed insert appends exactly one row holding the four parameters
   * under an id no present row has; all earlier rows stay as they were.
   */
  lemma InsertAddsOneRow(rows: seq<Row>, name: string, username: string, password: string, note: Option<string>)
    ensures var t' := TableAfter(Insert(Some(name), Some(username), Some(password), note), Table(rows), true);
            && t'.Table?
            && |t'.rows| == |rows| + 1
            && t'.rows[..|rows|] == rows
            && t'.rows[|rows|] == Row(t'.rows[|rows|].id, name, username, password, note)
            && forall i :: 0 <= i < |rows| ==> rows[i].id != t'.rows[|rows|].id
  {
    var t' := TableAfter(Insert(Some(name), Some(username), Some(password), note), Table(rows), true);
    assert t'.rows[..|rows|] == rows;
    assert !HasId(rows, t'.rows[|rows|].id);
  }

  /** An insert that binds NULL to a NOT NULL column fails and leaves the table as it was. */
  lemma InsertNullFails(t: TableState, name: Option<string>, username: Option<string>, password: Option<string>,
                        note: Option<string>, accessible: bool)
    requires name.None? || username.None? || password.None?
    ensures TableAfter(Insert(name, username, password, note), t, accessible) == t
    ensures ResultOf(Insert(name, username, password, note), t, accessible) == []
  {
  }

  /** Without the table, every statement but the creation fails and changes nothing. */
  lemma MissingTableFails(st: Statement, accessible: bool)
    requires !st.CreateTableIfNotExists?
    ensures TableAfter(st, NoTable, accessible) == NoTable
    ensures ResultOf(st, NoTable, accessible) == []
  {
  }

  /**
   * A delete removes the row with that id and keeps every other row; for an
   * absent id it changes nothing; for a present id the table shrinks by one.
   */
  lemma DeleteRemovesOnlyThatRow(rows: seq<Row>, id: int)
    requires UniqueIds(rows)
    ensures var rows' := TableAfter(DeleteWhereId(id), Table(rows), true).rows;
            && (forall x :: x in rows' <==> x in rows && x.id != id)
            && (!HasId(rows, id) ==> rows' == rows)
            && (HasId(rows, id) ==> |rows'| == |rows| - 1)
  {
    WithoutCount(rows, id);
  }

  lemma TailUniqueIds(rows: seq<Row>)
    requires rows != [] && UniqueIds(rows)
    ensures UniqueIds(rows[1..])
    ensures !HasId(rows[1..], rows[0].id)
  {
    forall i, j | 0 <= i < j < |rows[1..]| ensures rows[1..][i].id != rows[1..][j].id {
      assert rows[1..][i] == rows[i + 1] && rows[1..][j] == rows[j + 1];
    }
    forall k | 0 <= k < |rows[1..]| ensures rows[1..][k].id != rows[0].id {
      assert rows[1..][k] == rows[k + 1];
    }
  }

  lemma TailHasId(rows: seq<Row>, id: int)
    requires rows != [] && rows[0].id != id
    ensures HasId(rows, id) <==> HasId(rows[1..], id)
  {
    if HasId(rows, id) {
      var k :| 0 <= k < |rows| && rows[k].id == id;
      assert rows[1..][k - 1] == rows[k];
    }
    if HasId(rows[1..], id) {
      var k :| 0 <= k < |rows[1..]| && rows[1..][k].id == id;
      assert rows[k + 1] == rows[1..][k];
    }
  }

  lemma {:induction false} WithoutCount(rows: seq<Row>, id: int)
    requires UniqueIds(rows)
    ensures !HasId(rows, id) ==> Without(rows, id) == rows
    ensures HasId(rows, id) ==> |Without(rows, id)| == |rows| - 1
  {
    if rows != [] {
      TailUniqueIds(rows);
      WithoutCount(rows[1..], id);
      if rows[0].id != id {
        TailHasId(rows, id);
        assert [rows[0]] + rows[1..] == rows;
      }
    }
  }

  /** Deleting the row just inserted gives back the table as it was before the insert. */
  lemma InsertThenDeleteRestores(rows: seq<Row>, name: string, username: string, password: string, note: Option<string>)
    requires UniqueIds(rows)
    ensures var t1 := TableAfter(Insert(Some(name), Some(username), Some(password), note), Table(rows), true);
            TableAfter(DeleteWhereId(NextId(rows)), t1, true) == Table(rows)
  {
    var row := Row(NextId(rows), name, username, password, note);
    var t1 := TableAfter(Insert(Some(name), Some(username), Some(password), note), Table(rows), true);
    assert t1 == Table(rows + [row]);
    WithoutAppended(rows, row);
    assert Execute(DeleteWhereId(row.id), t1) == Done(Table(rows), []);
  }

  lemma {:induction false} WithoutAppended(rows: seq<Row>, row: Row)
    requires !HasId(rows, row.id)
    ensures Without(rows + [row], row.id) == rows
  {
    if rows == [] {
      assert [] + [row] == [row];
    } else {
      assert (rows + [row])[1..] == rows[1..] + [row];
      assert !HasId(rows[1..], row.id) by {
        forall k | 0 <= k < |rows[1..]| ensures rows[1..][k].id != row.id {
          assert rows[1..][k] == rows[k + 1];
        }
      }
      WithoutAppended(rows[1..], row);
      assert [rows[0]] + rows[1..] == rows;
    }
  }

  /**
   * Ids are reused: after the newest row is deleted, the next insert gets the
   * id that row had.
   */
  lemma IdReusedAfterDeletingNewest(rows: seq<Row>, a: Row, b: Row)
    requires UniqueIds(rows)
    ensures var t1 := TableAfter(Insert(Some(a.name), Some(a.username), Some(a.password), a.note), Table(rows), true);
            var t2 := TableAfter(DeleteWhereId(NextId(rows)), t1, true);
            var t3 := TableAfter(Insert(Some(b.name), Some(b.username), Some(b.password), b.note), t2, true);
            t1.rows[|rows|].id == NextId(rows) && t2 == Table(rows) && t3.rows[|rows|].id == NextId(rows)
  {
    InsertThenDeleteRestores(rows, a.name, a.username, a.password, a.note);
  }

  /**
   * `SELECT *` fetches every row once; with an empty filter `get_passwords`
   * sends exactly that statement.
   */
  lemma SelectAllFetchesEveryRow(rows: seq<Row>, filterText: string)
    requires filterText == []
    ensures multiset(ResultOf(SelectFor(filterText), Table(rows), true)) == multiset(rows)
    ensures ResultOf(SelectFor(filterText), Table(rows), true) == ResultOf(SelectAll, Table(rows), true)
  {
  }

  /**
   * With a non-empty filter free of `%` and `_`, `get_passwords` fetches
   * exactly the rows whose name or username contains the filter, ASCII letters
   * compared regardless of case, each of them once.
   */
  lemma FilterSelectsSubstringMatches(rows: seq<Row>, f: string)
    requires f != [] && NoWildcards(f)
    ensures var r := ResultOf(SelectFor(f), Table(rows), true);
            && multiset(r) <= multiset(rows)
            && forall x :: x in r <==> x in rows && (ContainsFolded(x.name, f) || ContainsFolded(x.username, f))
  {
    forall x | x in rows
      ensures MatchesPattern(x, "%" + f + "%") <==> ContainsFolded(x.name, f) || ContainsFolded(x.username, f)
    {
      SubstringFilter(f, x.name);
      SubstringFilter(f, x.username);
    }
  }
}
