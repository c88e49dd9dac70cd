/**
 * db_handler.py: `DBHandler` opens the SQLite file named at construction for
 * every query, runs one statement, commits and closes. The file is modelled
 * as an object of its own, so that two handlers on the same file share it.
 */
module Db {

  import opened Wrappers
  import opened PasswordsTable

  /**
   * A SQLite database file. `accessible` stands for the environment: when it
   * is false, opening, executing or committing raises and the handler swallows
   * the error.
   */
  class DbFile {
    const accessible: bool
    var table: TableState

    ghost predicate Valid()
      reads this
    {
      WellFormed(table)
    }

    constructor (accessible: bool, table: TableState)
      requires WellFormed(table)
      ensures Valid()
      ensures this.accessible == accessible && this.table == table
    {
      this.accessible := accessible;
      this.table := table;
    }
  }

  class DbHandler {
    /** The file `db_name` names. */
    const file: DbFile

    ghost predicate Valid()
      reads this, file
    {
      file.Valid()
    }

    /** `DBHandler(db_name)`: binds the file and creates the table if it does not exist. */
    constructor (file: DbFile)
      requires file.Valid()
      modifies file
      ensures this.file == file && Valid()
      ensures file.table == TableAfter(CreateTableIfNotExists, old(file.table), file.accessible)
    {
      this.file := file;
      new;
      CreateTable();
    }

    /** `create_table`: `CREATE TABLE IF NOT EXISTS passwords (...)`. */
    method CreateTable()
      requires Valid()
      modifies file
      ensures Valid()
      ensures file.table == TableAfter(CreateTableIfNotExists, old(file.table), file.accessible)
      ensures old(file.table).Table? ==> file.table == old(file.table)
    {
      var _ := ExecuteQuery(CreateTableIfNotExists);
      CreateTableIdempotent(old(file.table), file.accessible);
    }

    /**
     * `execute_query`: runs one statement and commits it. Any error, from the
     * environment or from the statement, is swallowed: the call returns `[]`
     * and nothing is committed.
     */
    method ExecuteQuery(st: Statement) returns (result: seq<Row>)
      requires Valid()
      modifies file
      ensures Valid()
      ensures file.table == TableAfter(st, old(file.table), file.accessible)
      ensures result == ResultOf(st, old(file.table), file.accessible)
      ensures !file.accessible || Execute(st, old(file.table)).Failed? ==> result == [] && file.table == old(file.table)
    {
      ExecuteKeepsUniqueIds(st, file.table, file.accessible);
      if !file.accessible {
        return [];
      }
      match Execute(st, file.table)
      case Failed =>
        result := [];
      case Done(t, fetched) =>
        file.table := t;
        result := fetched;
    }

    /** `get_passwords(filter_text)`: all rows for an empty filter, else the rows whose name or username is LIKE `%filter_text%`. */
    function GetPasswords(filterText: string): (r: seq<Row>)
      reads this, file
      requires Valid()
      ensures !file.accessible || file.table.NoTable? ==> r == []
      ensures filterText == [] ==> r == GetAllPasswords()
      ensures file.accessible && file.table.Table? ==>
        && multiset(r) <= multiset(file.table.rows)
        && forall x :: x in r <==> x in file.table.rows && (filterText == [] || MatchesPattern(x, "%" + filterText + "%"))
    {
      ResultOf(SelectFor(filterText), file.table, file.accessible)
    }

    /** `get_all_passwords`: every row, each once, when the table can be read. */
    function GetAllPasswords(): (r: seq<Row>)
      reads this, file
      requires Valid()
      ensures !file.accessible || file.table.NoTable? ==> r == []
      ensures file.accessible && file.table.Table? ==> multiset(r) == multiset(file.table.rows)
    {
      ResultOf(SelectAll, file.table, file.accessible)
    }

    /**
     * `add_password(name, username, password, note="")`: inserts one row; the
     * parameters bind as given, `None` as NULL.
     */
    method AddPassword(name: Option<string>, username: Option<string>, password: Option<string>,
                       note: Option<string> := Some(""))
      requires Valid()
      modifies file
      ensures Valid()
      ensures file.table == TableAfter(Insert(name, username, password, note), old(file.table), file.accessible)
      ensures file.accessible && old(file.table).Table? && name.Some? && username.Some? && password.Some? ==>
        file.table.rows == old(file.table.rows) + [Row(NextId(old(file.table.rows)), name.value, username.value, password.value, note)]
      ensures !file.accessible || old(file.table).NoTable? || name.None? || username.None? || password.None? ==>
        file.table == old(file.table)
    {
      var _ := ExecuteQuery(Insert(name, username, password, note));
    }

    /** `delete_password(password_id)`: deletes the row with that id, if any. */
    method DeletePassword(id: int)
      requires Valid()
      modifies file
      ensures Valid()
      ensures file.table == TableAfter(DeleteWhereId(id), old(file.table), file.accessible)
      ensures file.accessible && old(file.table).Table? ==> file.table.rows == Without(old(file.table.rows), id)
      ensures !file.accessible || old(file.table).NoTable? ==> file.table == old(file.table)
    {
      var _ := ExecuteQuery(DeleteWhereId(id));
    }
  }

  /**
   * Opening a second handler on a file keeps every row the first one left
   * there: the table is created once and then reused.
   */
  method OpenTwice(file: DbFile) returns (first: DbHandler, second: DbHandler)
    requires file.Valid()
    modifies file
    ensures first.file == file && second.file == file && file.Valid()
    ensures old(file.table).Table? ==> file.table == old(file.table)
    ensures file.table == TableAfter(CreateTableIfNotExists, old(file.table), file.accessible)
  {
    first := new DbHandler(file);
    second := new DbHandler(file);
    CreateTableIdempotent(old(file.table), file.accessible);
  }
}
