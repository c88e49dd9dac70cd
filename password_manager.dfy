/**
 * The rules inside main.py's `PasswordManager` window that are not widget
 * layout: the table it fills from the database, the visibility and theme
 * flags, the generator settings, and the two ways of saving a password.
 */
module PasswordManagerWindow {

  import opened Wrappers
  import opened PyText
  import opened PasswordsTable
  import opened Db
  import opened PasswordGen
  import opened TableWidgets

  // ---------------------------------------------------------------------
  // Generator settings
  // ---------------------------------------------------------------------

  /** A value in the `password_generator_settings` dictionary. */
  datatype Setting = IntSetting(n: int) | BoolSetting(b: bool)

  const LengthKey: string := "length"
  const DigitsKey: string := "use_digits"
  const SpecialCharsKey: string := "use_special_chars"

  /** The dictionary `__init__` starts with. */
  function DefaultSettings(): (m: map<string, Setting>)
    ensures m.Keys == {LengthKey, DigitsKey, SpecialCharsKey}
    ensures SettingsWellFormed(m) && ConfiguredGenerator(m) == PasswordGenerator()
  {
    map[LengthKey := IntSetting(12), DigitsKey := BoolSetting(true), SpecialCharsKey := BoolSetting(true)]
  }

  /** The three keys are present with values of the kinds `generate_password` reads. */
  predicate SettingsWellFormed(m: map<string, Setting>)
  {
    && LengthKey in m && m[LengthKey].IntSetting?
    && DigitsKey in m && m[DigitsKey].BoolSetting?
    && SpecialCharsKey in m && m[SpecialCharsKey].BoolSetting?
  }

  /** The dictionary after `save_password_settings` writes the dialog's three values. */
  function SavedSettings(m: map<string, Setting>, length: int, useDigits: bool, useSpecialChars: bool)
    : (m': map<string, Setting>)
    ensures m'.Keys == m.Keys + {LengthKey, DigitsKey, SpecialCharsKey}
    ensures m'[LengthKey] == IntSetting(length)
    ensures m'[DigitsKey] == BoolSetting(useDigits)
    ensures m'[SpecialCharsKey] == BoolSetting(useSpecialChars)
    ensures forall k :: k in m && k != LengthKey && k != DigitsKey && k != SpecialCharsKey ==> m'[k] == m[k]
    ensures SettingsWellFormed(m')
  {
    m[LengthKey := IntSetting(length)][DigitsKey := BoolSetting(useDigits)][SpecialCharsKey := BoolSetting(useSpecialChars)]
  }

  /** The generator `generate_password` builds from the settings, passing the flags by keyword. */
  function ConfiguredGenerator(m: map<string, Setting>): (g: PasswordGenerator)
    requires SettingsWellFormed(m)
    ensures g.length == m[LengthKey].n
    ensures g.useDigits == m[DigitsKey].b && g.useSpecialChars == m[SpecialCharsKey].b
  {
    PasswordGenerator(length := m[LengthKey].n, useSpecialChars := m[SpecialCharsKey].b, useDigits := m[DigitsKey].b)
  }

  /** After the settings are saved, the next generator has exactly the saved length and flags. */
  lemma SavedSettingsConfigureGenerator(m: map<string, Setting>, length: int, useDigits: bool, useSpecialChars: bool)
    ensures ConfiguredGenerator(SavedSettings(m, length, useDigits, useSpecialChars))
         == PasswordGenerator(length, useDigits, useSpecialChars)
  {
  }

  // ---------------------------------------------------------------------
  // The password table as shown
  // ---------------------------------------------------------------------

  /** `str(value)` of a nullable column. */
  function PyStr(value: Option<string>): string
  {
    match value
    case None => "None"
    case Some(s) => s
  }

  /** `str(row_data[column])` for the five columns of a fetched row. */
  function FieldText(record: Row, column: int): string
  {
    if column == 0 then IntToString(record.id)
    else if column == 1 then record.name
    else if column == 2 then record.username
    else if column == 3 then record.password
    else PyStr(record.note)
  }

  /** The text `load_passwords` writes for a column: column 2 is masked unless passwords are shown. */
  function CellText(record: Row, column: int, show: bool): (text: string)
    ensures column == 0 ==> ParseInt(text) == Some(record.id)
    ensures column == 1 ==> text == record.name
    ensures column == 2 ==> text == (if show then record.username else "***")
    ensures column == 3 ==> text == record.password
    ensures column == 4 ==> text == PyStr(record.note)
  {
    IntToStringRoundTrip(record.id);
    if column == 2 && !show then "***" else FieldText(record, column)
  }

  /**
   * The four cells one record occupies: the id's decimal text, the name, the
   * username or `***`, and the password. The note would go to column 4, which
   * a four-column table does not have.
   */
  function DisplayedRow(record: Row, show: bool): (cells: seq<string>)
    ensures |cells| == 4
    ensures forall c :: 0 <= c < 4 ==> cells[c] == CellText(record, c, show)
  {
    [IntToString(record.id), record.name, if show then record.username else "***", record.password]
  }

  /** The table after `load_passwords` has shown `records`. */
  function Display(records: seq<Row>, show: bool): (grid: seq<seq<string>>)
    ensures |grid| == |records|
    ensures forall i :: 0 <= i < |records| ==> grid[i] == DisplayedRow(records[i], show)
  {
    seq(|records|, i requires 0 <= i < |records| => DisplayedRow(records[i], show))
  }

  /** Showing one more record appends its displayed row. */
  lemma DisplayExtends(records: seq<Row>, n: nat, show: bool)
    requires n < |records|
    ensures Display(records[..n + 1], show) == Display(records[..n], show) + [DisplayedRow(records[n], show)]
  {
    assert records[..n + 1] == records[..n] + [records[n]];
  }

  /** Row `rowNumber` while its columns are being filled: columns before `column` are set. */
  function PartialRow(record: Row, show: bool, column: int): (cells: seq<string>)
    ensures |cells| == 4
  {
    seq(4, c requires 0 <= c < 4 => if c < column then CellText(record, c, show) else "")
  }

  /** Writing column `column` extends the filled part of a row by one; column 4 is past the end. */
  lemma PartialRowStep(record: Row, show: bool, column: int)
    requires 1 <= column < 5
    ensures column < 4 ==>
      PartialRow(record, show, column)[column := CellText(record, column, show)] == PartialRow(record, show, column + 1)
    ensures column == 4 ==> PartialRow(record, show, column) == PartialRow(record, show, column + 1)
  {
  }

  /**
   * What the table shows of each record: one grid row per record, its id in
   * column 0 (from which `int()` gives the id back), and in column 2 `***`
   * while passwords are hidden, the username column once they are shown.
   */
  lemma DisplayedCells(records: seq<Row>, show: bool, i: nat)
    requires i < |records|
    ensures |Display(records, show)| == |records|
    ensures ParseInt(Display(records, show)[i][0]) == Some(records[i].id)
    ensures Display(records, show)[i][1] == records[i].name
    ensures !show ==> Display(records, show)[i][2] == "***"
    ensures show ==> Display(records, show)[i][2] == records[i].username
    ensures Display(records, show)[i][3] == records[i].password
  {
    IntToStringRoundTrip(records[i].id);
  }

  /** Rows with different ids show different texts in column 0. */
  lemma DisplayedIdsDistinct(records: seq<Row>, show: bool, i: nat, j: nat)
    requires i < |records| && j < |records| && records[i].id != records[j].id
    ensures Display(records, show)[i][0] != Display(records, show)[j][0]
  {
    IntToStringInjective(records[i].id, records[j].id);
  }

  // ---------------------------------------------------------------------
  // Saving a password
  // ---------------------------------------------------------------------

  /** The four arguments handed to `add_password`. */
  datatype Entry = Entry(name: string, username: string, password: string, note: string)

  /** The statement an entry sends. */
  function InsertOf(e: Entry): Statement
  {
    Insert(Some(e.name), Some(e.username), Some(e.password), Some(e.note))
  }

  /**
   * `save_password_manually`: reads the three line edits as the code does
   * (username field into `name`, password field into `username`, name field
   * into `password`) and refuses to save unless all three are non-blank.
   */
  function ManualEntry(nameText: string, usernameText: string, passwordText: string, noteText: Option<string>)
    : (e: Option<Entry>)
    ensures e.Some? <==> Strip(nameText) != [] && Strip(usernameText) != [] && Strip(passwordText) != []
  {
    var name := Strip(usernameText);
    var username := Strip(passwordText);
    var password := Strip(nameText);
    var note := if noteText.Some? then Strip(noteText.value) else "";
    if name == [] || username == [] || password == [] then None
    else Some(Entry(name, username, password, note))
  }

  /**
   * `save_generated_password`: the displayed password (not stripped) and the
   * stripped name and note, passed to `add_password(name, password, note)`
   * positionally, so they fill name, username and password, and the note
   * takes its default `""`.
   */
  function GeneratedEntry(displayText: string, nameText: string, noteText: string): (e: Option<Entry>)
    ensures e.Some? <==> Strip(nameText) != [] && displayText != []
  {
    var password := displayText;
    var name := Strip(nameText);
    var note := Strip(noteText);
    if name == [] || password == [] then None
    else Some(Entry(name, password, note, ""))
  }

  /** Sending an entry to a readable table appends one row carrying the entry's four texts. */
  lemma InsertOfAppends(rows: seq<Row>, e: Entry)
    ensures TableAfter(InsertOf(e), Table(rows), true)
         == Table(rows + [Row(NextId(rows), e.name, e.username, e.password, Some(e.note))])
  {
  }

  /**
   * A manual save that goes through appends one row whose name column holds
   * the username field, whose username column holds the password field and
   * whose password column holds the name field; the typed password is then
   * the masked cell of the table.
   */
  lemma ManualSaveColumns(rows: seq<Row>, nameText: string, usernameText: string, passwordText: string)
    requires ManualEntry(nameText, usernameText, passwordText, None).Some?
    ensures var t' := TableAfter(InsertOf(ManualEntry(nameText, usernameText, passwordText, None).value), Table(rows), true);
            var row := Row(NextId(rows), Strip(usernameText), Strip(passwordText), Strip(nameText), Some(""));
            && t' == Table(rows + [row])
            && DisplayedRow(row, false)[2] == "***"
            && DisplayedRow(row, true)[2] == Strip(passwordText)
            && DisplayedRow(row, false)[3] == Strip(nameText)
  {
    InsertOfAppends(rows, ManualEntry(nameText, usernameText, passwordText, None).value);
  }

  /**
   * A generated save that goes through appends one row with the name in the
   * name column, the generated password in the username column, the note in
   * the password column and an empty note.
   */
  lemma GeneratedSaveColumns(rows: seq<Row>, displayText: string, nameText: string, noteText: string)
    requires GeneratedEntry(displayText, nameText, noteText).Some?
    ensures var t' := TableAfter(InsertOf(GeneratedEntry(displayText, nameText, noteText).value), Table(rows), true);
            var row := Row(NextId(rows), Strip(nameText), displayText, Strip(noteText), Some(""));
            && t' == Table(rows + [row])
            && DisplayedRow(row, false)[2] == "***"
            && DisplayedRow(row, true)[2] == displayText
            && DisplayedRow(row, false)[3] == Strip(noteText)
  {
    InsertOfAppends(rows, GeneratedEntry(displayText, nameText, noteText).value);
  }

  // ---------------------------------------------------------------------
  // The window
  // ---------------------------------------------------------------------

  class PasswordManager {
    const db: DbHandler
    const table: TableWidget
    /** The text of `filter_input`. */
    var filterText: string
    var settings: map<string, Setting>
    var showPasswords: bool
    var darkThemeEnabled: bool

    ghost predicate Valid()
      reads this, db, db.file, table
    {
      db.Valid() && table.Valid() && table.columnCount == 4 && SettingsWellFormed(settings)
    }

    /** `PasswordManager()`: a handler on the file, default settings, both flags off, then the first load. */
    constructor (file: DbFile)
      requires file.Valid()
      modifies file
      ensures Valid() && db.file == file && fresh(table)
      ensures file.table == TableAfter(CreateTableIfNotExists, old(file.table), file.accessible)
      ensures settings == DefaultSettings() && !showPasswords && !darkThemeEnabled && filterText == ""
      ensures table.cells == Display(db.GetPasswords(filterText), showPasswords)
    {
      db := new DbHandler(file);
      settings := DefaultSettings();
      showPasswords := false;
      darkThemeEnabled := false;
      filterText := "";
      table := new TableWidget(4);
      new;
      LoadPasswords();
    }

    /** `load_passwords`: empties the table, then writes one row per record the filter fetches. */
    method LoadPasswords()
      requires Valid()
      modifies table
      ensures Valid()
      ensures table.cells == Display(db.GetPasswords(filterText), showPasswords)
    {
      table.ClearRows();
      var passwords := db.GetPasswords(filterText);
      var rowNumber := 0;
      while rowNumber < |passwords|
        invariant 0 <= rowNumber <= |passwords|
        invariant table.Valid()
        invariant table.cells == Display(passwords[..rowNumber], showPasswords)
      {
        var record := passwords[rowNumber];
        ShowRecord(rowNumber, record);
        DisplayExtends(passwords, rowNumber, showPasswords);
        rowNumber := rowNumber + 1;
      }
      assert passwords[..rowNumber] == passwords;
    }

    /**
     * One pass of `load_passwords`' loop: inserts a row after the ones shown
     * so far and writes the record's columns into it, the id first.
     */
    method ShowRecord(rowNumber: nat, record: Row)
      requires table.Valid() && table.columnCount == 4 && |table.cells| == rowNumber
      modifies table
      ensures table.Valid()
      ensures table.cells == old(table.cells) + [DisplayedRow(record, showPasswords)]
    {
      table.InsertRow(rowNumber);
      table.SetItem(rowNumber, 0, IntToString(record.id));
      var column := 1;
      while column < 5
        invariant 1 <= column <= 5
        invariant table.Valid()
        invariant |table.cells| == rowNumber + 1
        invariant table.cells[..rowNumber] == old(table.cells)
        invariant table.cells[rowNumber] == PartialRow(record, showPasswords, column)
      {
        table.SetItem(rowNumber, column, CellText(record, column, showPasswords));
        PartialRowStep(record, showPasswords, column);
        column := column + 1;
      }
      assert PartialRow(record, showPasswords, 5) == DisplayedRow(record, showPasswords);
      assert table.cells == table.cells[..rowNumber] + [table.cells[rowNumber]];
    }

    /** A change of the filter text reloads the table with the new filter. */
    method FilterChanged(text: string)
      requires Valid()
      modifies this`filterText, table
      ensures Valid() && filterText == text
      ensures table.cells == Display(db.GetPasswords(text), showPasswords)
    {
      filterText := text;
      LoadPasswords();
    }

    /** `toggle_password_visibility`: flips the flag and reloads. */
    method TogglePasswordVisibility()
      requires Valid()
      modifies this`showPasswords, table
      ensures Valid()
      ensures showPasswords == !old(showPasswords)
      ensures table.cells == Display(db.GetPasswords(filterText), showPasswords)
    {
      showPasswords := !showPasswords;
      LoadPasswords();
    }

    /** `toggle_theme`: flips the dark-theme flag (the palette itself is not modelled). */
    method ToggleTheme()
      modifies this`darkThemeEnabled
      ensures darkThemeEnabled == !old(darkThemeEnabled)
    {
      if darkThemeEnabled {
        darkThemeEnabled := false;
      } else {
        darkThemeEnabled := true;
      }
    }

    /** Toggling either flag twice restores it, and the table shows the same as before. */
    method ToggleTwice()
      requires Valid()
      modifies this`showPasswords, this`darkThemeEnabled, table
      ensures Valid()
      ensures showPasswords == old(showPasswords) && darkThemeEnabled == old(darkThemeEnabled)
      ensures table.cells == Display(db.GetPasswords(filterText), old(showPasswords))
    {
      ToggleTheme();
      ToggleTheme();
      TogglePasswordVisibility();
      TogglePasswordVisibility();
    }

    /** `save_password_settings`: overwrites the three keys with the dialog's values. */
    method SavePasswordSettings(length: int, useDigits: bool, useSpecialChars: bool)
      requires Valid()
      modifies this`settings
      ensures Valid()
      ensures settings == SavedSettings(old(settings), length, useDigits, useSpecialChars)
      ensures ConfiguredGenerator(settings) == PasswordGenerator(length, useDigits, useSpecialChars)
    {
      settings := SavedSettings(settings, length, useDigits, useSpecialChars);
      SavedSettingsConfigureGenerator(old(settings), length, useDigits, useSpecialChars);
    }

    /**
     * `save_password_manually`: nothing is written and the table is left
     * alone when a field is blank; otherwise one `add_password` call, then a
     * reload.
     */
    method SavePasswordManually(nameText: string, usernameText: string, passwordText: string,
                                noteText: Option<string> := None)
      requires Valid()
      modifies db.file, table
      ensures Valid()
      ensures ManualEntry(nameText, usernameText, passwordText, noteText).None? ==>
        db.file.table == old(db.file.table) && table.cells == old(table.cells)
      ensures ManualEntry(nameText, usernameText, passwordText, noteText).Some? ==>
        && db.file.table == TableAfter(InsertOf(ManualEntry(nameText, usernameText, passwordText, noteText).value),
                                       old(db.file.table), db.file.accessible)
        && table.cells == Display(db.GetPasswords(filterText), showPasswords)
    {
      var entry := ManualEntry(nameText, usernameText, passwordText, noteText);
      if entry.None? {
        return;
      }
      var e := entry.value;
      db.AddPassword(Some(e.name), Some(e.username), Some(e.password), Some(e.note));
      LoadPasswords();
    }

    /** The one `add_password` call of a generated save: three arguments, the note left to its default. */
    method AddGenerated(e: Entry)
      requires Valid() && e.note == ""
      modifies db.file
      ensures Valid()
      ensures db.file.table == TableAfter(InsertOf(e), old(db.file.table), db.file.accessible)
    {
      db.AddPassword(Some(e.name), Some(e.username), Some(e.password));
    }

    /**
     * `save_generated_password`: nothing is written when the name or the
     * generated password is empty; otherwise one `add_password` call with
     * three arguments. The table is not reloaded.
     */
    method SaveGeneratedPassword(displayText: string, nameText: string, noteText: string)
      requires Valid()
      modifies db.file
      ensures Valid()
      ensures GeneratedEntry(displayText, nameText, noteText).None? ==> db.file.table == old(db.file.table)
      ensures GeneratedEntry(displayText, nameText, noteText).Some? ==>
        db.file.table == TableAfter(InsertOf(GeneratedEntry(displayText, nameText, noteText).value),
                                    old(db.file.table), db.file.accessible)
    {
      var entry := GeneratedEntry(displayText, nameText, noteText);
      if entry.None? {
        return;
      }
      AddGenerated(entry.value);
    }
  }
}
