# Password manager: a Dafny model

This project models the logic of a small PyQt6 desktop password manager.
`DBHandler` keeps the credentials in one SQLite table, `passwords`, with the
columns `id`, `name`, `username`, `password` and `note`. The `PasswordManager`
window shows that table, filters it, masks one column, and saves entries typed
by hand or made by `PasswordGenerator`.

The model has these parts:

- `PyText` (py_text.dfy): the three Python `str` operations the code relies on:
  - `str.strip()` with Python's whitespace set;
  - `str(n)` of an integer;
  - `int()` applied back to that text.
- `SqlLike` (sql_like.dfy): SQLite's `LIKE` without an ESCAPE clause. `%`
  matches any run of characters, `_` matches one character, and ASCII letters
  compare without regard to case.
- `PasswordsTable` (passwords_table.dfy): the `passwords` table, and the five
  statements the handler sends, as a pure function from statement and table
  state to outcome. The outcome is either a raised `sqlite3.Error` or a new
  state with the fetched rows. The schema's NOT NULL columns make an insert
  with `None` fail. The PRIMARY KEY stays unique. A new row takes the id one
  above the largest present, or 1 in an empty table.
- `Db` (db_handler.dfy): `DbFile` is the database file, an object shared by
  every handler opened on it. `DbHandler` is a class whose methods run one
  statement each. `execute_query` swallows every error: the call returns `[]`
  and nothing is committed. The file's `accessible` flag stands for an
  environment error that affects every call on the file, such as a file that
  cannot be opened.
- `PasswordGen` (password_generator.dfy): `string.ascii_letters`, `digits` and
  `punctuation`, the alphabet the two flags select, and `generate`. Randomness
  is an input: `draws[i]` is the index `random.choice` picked for character `i`.
- `Complexity` (complexity.dfy): `evaluate_complexity` and the score-to-label
  chain of `update_password_complexity`.
- `TableWidgets` (table_widget.dfy): the part of `QTableWidget` that
  `load_passwords` drives. It is a grid of cell texts with a fixed column
  count. `insertRow` outside the rows does nothing. `setItem` writes only the
  addressed cell and does nothing past the last cell, which is where
  `load_passwords`' column-4 write lands, because it is made on the last row.
- `PasswordManagerWindow` (password_manager.dfy): the settings dictionary and
  the table as shown. It also holds the two save paths, with their blank-field
  checks and the columns each fills, and the `PasswordManager` class with its
  flags and methods.

What the code does, as the model states it:

- A second handler on the same file keeps every row, because the table is
  created only if it does not exist.
- A new row's id is fresh among the rows present. Ids are reused: after the
  newest row is deleted, the next insert gets its id. The table is
  `INTEGER PRIMARY KEY` without `AUTOINCREMENT`.
- `get_passwords(f)` with a non-empty `f` free of `%` and `_` returns the rows
  whose name or username contains `f`, ASCII letters compared regardless of
  case. A `%` or `_` in `f` acts as a wildcard. No ordering is claimed, since
  the `SELECT` has no `ORDER BY`. Only membership and multiplicity are stated.
- The table widget has four columns, so the note that `load_passwords` writes
  to column 4 is dropped. Column 2 shows `***` while passwords are hidden, and
  the username once they are shown. The password itself sits in column 3,
  unmasked.
- `save_password_manually` fills the columns as follows:
  - the name column gets the username field;
  - the username column gets the password field;
  - the password column gets the name field;
  - the note column gets `""`.
- `save_generated_password` calls `add_password(name, password, note)`. The
  generated password therefore goes to the username column, the note to the
  password column, and `""` to the note column.

The code has no encryption and no key handling: the passwords are stored as
typed. The store itself accepts empty texts; only the two save paths of the
window check for blank fields.

## Model

| member | source | states |
|---|---|---|
| PyText.Strip | main.py:409-411 | the result is a contiguous piece of the input with only whitespace before and after it, neither starting nor ending with whitespace, and empty exactly when the input is all whitespace |
| PyText.IntToString | main.py:224 | `str(id)` is non-empty and starts with `-` exactly for a negative id |
| PyText.IntToStringRoundTrip | main.py:224 | `int(str(n)) == n` for every integer id written to column 0 |
| PyText.IntToStringInjective | main.py:224 | different ids give different column-0 texts |
| SqlLike.Like | db_handler.py:48 | a pattern without `%` and `_` matches exactly the strings equal to it up to ASCII case |
| SqlLike.SubstringFilter | db_handler.py:47-49 | for a filter without `%` and `_`, `s LIKE '%f%'` holds exactly when `f` occurs contiguously in `s`, ASCII case ignored |
| SqlLike.UnderscoreMatchesAnyCharacter | db_handler.py:48-49 | a `_` in the filter is a wildcard: `'%_%'` matches exactly the non-empty strings |
| SqlLike.PercentMatchesAll | db_handler.py:49 | `%` alone matches every string |
| PasswordsTable.MaxId | db_handler.py:14 | the largest id is at least every id present and is itself present |
| PasswordsTable.NextId | db_handler.py:14 | the id a new row gets is held by no present row, and is 1 in an empty table |
| PasswordsTable.Matching | db_handler.py:48-49 | the LIKE scan returns exactly the rows matching on name or username, none more often than stored |
| PasswordsTable.Without | db_handler.py:61-62 | the DELETE keeps exactly the rows with another id, none more often than stored |
| PasswordsTable.Execute | db_handler.py:13-18 | a statement fails exactly when the table is missing (except for the creation) or an insert binds NULL to a NOT NULL column; reads and the creation leave an existing table as it was; only reads fetch rows |
| PasswordsTable.ResultOf | db_handler.py:27-41 | any error, from the environment or the statement, yields `[]` |
| PasswordsTable.TableAfter | db_handler.py:27-41 | a statement that completes on an accessible file is committed, and after any error the file keeps its old state |
| PasswordsTable.SelectFor | db_handler.py:46-50 | an empty filter sends the unfiltered SELECT and only then |
| PasswordsTable.WithoutKeepsUniqueIds | db_handler.py:61 | deleting keeps the ids unique |
| PasswordsTable.ExecuteKeepsUniqueIds | db_handler.py:14 | every statement, failed or not, keeps the PRIMARY KEY invariant |
| PasswordsTable.CreateTableIdempotent | db_handler.py:12-21 | `CREATE TABLE IF NOT EXISTS` keeps an existing table, a second run changes nothing, and an accessible file ends up with the table |
| PasswordsTable.InsertAddsOneRow | db_handler.py:52-56 | a completed insert appends one row holding the four arguments under an id no earlier row has, earlier rows unchanged |
| PasswordsTable.InsertNullFails | db_handler.py:15-17 | an insert with NULL name, username or password changes nothing and returns `[]` |
| PasswordsTable.MissingTableFails | db_handler.py:36-38 | without the table every statement but the creation changes nothing and returns `[]` |
| PasswordsTable.DeleteRemovesOnlyThatRow | db_handler.py:59-62 | a delete keeps exactly the rows with other ids; an absent id changes nothing; a present id removes one row |
| PasswordsTable.WithoutCount | db_handler.py:61 | with unique ids, deleting an absent id is the identity and a present one shortens the table by one |
| PasswordsTable.InsertThenDeleteRestores | db_handler.py:52-62 | deleting the row just inserted restores the table |
| PasswordsTable.IdReusedAfterDeletingNewest | db_handler.py:14 | after the newest row is deleted, the next insert gets that row's id again |
| PasswordsTable.SelectAllFetchesEveryRow | db_handler.py:46-50 | with an empty filter every row is fetched, each as often as stored |
| PasswordsTable.FilterSelectsSubstringMatches | db_handler.py:47-49 | with a non-empty filter free of wildcards, exactly the rows whose name or username contains it are fetched, none more often than stored |
| Db.DbHandler.constructor | db_handler.py:6-8 | binds the file and leaves it as `create_table` does |
| Db.DbHandler.CreateTable | db_handler.py:10-21 | the file holds the table afterwards if it can be used, and an existing table is kept as it was |
| Db.DbHandler.ExecuteQuery | db_handler.py:23-41 | runs and commits one statement; on any error returns `[]` and leaves the file unchanged |
| Db.DbHandler.GetPasswords | db_handler.py:44-50 | `[]` when the file or table is unavailable; otherwise the rows matching `'%' + filter + '%'` on name or username, all rows for an empty filter, none more often than stored |
| Db.DbHandler.GetAllPasswords | db_handler.py:64-67 | every stored row, each as often as stored, or `[]` when the table cannot be read |
| Db.DbHandler.AddPassword | db_handler.py:52-56 | appends one row with the arguments and the next id, the note defaulting to `""`; changes nothing on a NULL argument or an error |
| Db.DbHandler.DeletePassword | db_handler.py:59-62 | keeps exactly the rows with another id, or changes nothing when the table cannot be used |
| Db.OpenTwice | db_handler.py:6-21 | two handlers on one file leave an existing table as it was |
| PasswordGen.ConstantsAsInPython | password_generator.py:13-19 | the letters, digits and punctuation constants have 52, 10 and 32 characters, and hold exactly the characters their names say |
| PasswordGen.PasswordGenerator.Characters | password_generator.py:13-19 | the letters are always in the alphabet, digits exactly when `use_digits` is set, punctuation exactly when `use_special_chars` is set, and nothing else is in it |
| PasswordGen.PasswordGenerator.Generate | password_generator.py:12-24 | the password has exactly `length` characters, none when `length <= 0`, each drawn from the alphabet |
| PasswordGen.GeneratedCharacters | password_generator.py:13-22 | each character is a letter, or a digit with digits on, or punctuation with special characters on |
| PasswordGen.LettersOnlyWithoutFlags | password_generator.py:13-22 | with both flags off, the password holds ASCII letters only |
| PasswordGen.IndexOf | password_generator.py:22 | gives a position at which the alphabet holds the character |
| PasswordGen.DrawsFor | password_generator.py:22 | gives draws that pick each wanted character from the alphabet |
| PasswordGen.EveryPasswordIsReachable | password_generator.py:22 | every string of the right length over the alphabet is what `generate` returns for some draws |
| Complexity.EvaluateComplexity | main.py:311-332 | the score is between 0 and 5 |
| Complexity.EmptyScoresZero | main.py:314-318 | the empty password scores 0 |
| Complexity.ScoreExtremes | main.py:314-330 | the score is 5 exactly when all five tests hold, and 0 exactly when none does |
| Complexity.AppendingNeverLowersScore | main.py:314-318 | appending characters never lowers the score |
| Complexity.StrengthOf | main.py:288-297 | a label exists exactly for scores 0 to 5; its rank is the score, with 4 and 5 both very strong |
| Complexity.TextsDistinct | main.py:288-297 | different strengths show different texts |
| Complexity.LabelFollowsScore | main.py:284-297 | every password gets a label, and appending characters never weakens it |
| TableWidgets.TableWidget.constructor | main.py:43-44 | a table with the given column count and no rows |
| TableWidgets.TableWidget.EmptyRow | main.py:223 | an inserted row has one cell per column |
| TableWidgets.TableWidget.ClearRows | main.py:220 | `setRowCount(0)` leaves no rows |
| TableWidgets.TableWidget.InsertRow | main.py:223 | an empty row appears at the given position, or nothing happens when it is out of range |
| TableWidgets.TableWidget.SetItem | main.py:224-229 | exactly the addressed cell takes the text, or nothing happens when it is out of range |
| PasswordManagerWindow.DefaultSettings | main.py:19-23 | exactly the three keys, and the generator built from them is `PasswordGenerator()` with its own defaults |
| PasswordManagerWindow.ConfiguredGenerator | main.py:375-384 | the keyword arguments put the saved length and each saved flag into the generator field of the same name |
| PasswordManagerWindow.SavedSettings | main.py:213-216 | the three keys take the dialog's values and every other key keeps its value |
| PasswordManagerWindow.SavedSettingsConfigureGenerator | main.py:375-384 | after a save, the next generator has exactly the saved length and flags |
| PasswordManagerWindow.CellText | main.py:224-229 | column 0 reads back as the id, column 1 is the name, column 2 is the username or `***`, column 3 the password, column 4 `str(note)` |
| PasswordManagerWindow.DisplayedRow | main.py:224-229 | four cells, each the text written to that column |
| PasswordManagerWindow.Display | main.py:222-229 | one grid row per record, each the record's four displayed cells |
| PasswordManagerWindow.PartialRowStep | main.py:225-229 | writing one column extends the filled part of a row by that column; column 4 changes nothing |
| PasswordManagerWindow.DisplayedCells | main.py:219-229 | column 0 reads back as the id; column 1 is the name; column 2 is `***` while hidden and the username when shown; column 3 is the password |
| PasswordManagerWindow.DisplayedIdsDistinct | main.py:224 | rows with different ids show different column-0 texts |
| PasswordManagerWindow.ManualEntry | main.py:409-417 | a manual save goes through exactly when all three stripped fields are non-empty |
| PasswordManagerWindow.GeneratedEntry | main.py:430-437 | a generated save goes through exactly when the stripped name and the displayed password are non-empty |
| PasswordManagerWindow.InsertOfAppends | db_handler.py:52-56 | inserting an entry appends one row carrying its four texts |
| PasswordManagerWindow.ManualSaveColumns | main.py:408-420 | the stored row holds the username field as name, the password field as username and the name field as password; the typed password is the masked cell |
| PasswordManagerWindow.GeneratedSaveColumns | main.py:440 | the stored row holds the name, then the generated password as username, then the note as password, with an empty note |
| PasswordManagerWindow.PasswordManager.constructor | main.py:16-27 | default settings, both flags off, the table created, and the table widget showing every row |
| PasswordManagerWindow.PasswordManager.LoadPasswords | main.py:219-229 | the widget shows exactly the displayed rows of what `get_passwords(filter)` returns, in that order |
| PasswordManagerWindow.PasswordManager.ShowRecord | main.py:223-229 | one loop pass appends the record's displayed row and keeps the rows above |
| PasswordManagerWindow.PasswordManager.FilterChanged | main.py:39 | a filter change reloads the table with the new filter |
| PasswordManagerWindow.PasswordManager.TogglePasswordVisibility | main.py:232-234 | negates `show_passwords` and reloads |
| PasswordManagerWindow.PasswordManager.ToggleTheme | main.py:96-115 | negates `dark_theme_enabled` |
| PasswordManagerWindow.PasswordManager.ToggleTwice | main.py:232-234 | toggling either flag twice restores it, and the table shows the current rows with the visibility it had before |
| PasswordManagerWindow.PasswordManager.SavePasswordSettings | main.py:213-216 | overwrites exactly the three keys, and the next generator uses the saved values |
| PasswordManagerWindow.PasswordManager.SavePasswordManually | main.py:407-425 | with a blank field nothing changes; otherwise one insert of the swapped entry and a reload |
| PasswordManagerWindow.PasswordManager.AddGenerated | main.py:440 | one `add_password` call with three arguments, the note taking its default `""` |
| PasswordManagerWindow.PasswordManager.SaveGeneratedPassword | main.py:427-447 | with a blank name or password nothing changes; otherwise one insert of the entry, no reload |

## Left out

- All PyQt6 widgets beyond the cell grid are out: dialogs, message boxes, progress bars, palettes and colours, help text. The dialogs that call the save methods (main.py:236-309, 335-371) are out too; the model takes the texts their fields hold as parameters.
- `export_passwords`, `import_passwords` and csv_handler.py are file I/O, so they are out. Import calls a `save_password` that `DBHandler` does not have.
- `update_progress` is never connected and calls generator methods that do not exist.
- exceptions.py only declares exception classes.
- The window's own `delete_password` is out. It opens a second `DBHandler()` on the default file (main.py:166), deletes the selected ids through it, and removes the widget rows itself without a reload (main.py:171).
- `refresh_data` and the `add_password` chooser are out; they only call modelled operations.
- SQLite connection handling, commit and close ordering, and the debug `print`s are out. Only the observable effect is kept: the statement's result and new state, or `[]` with nothing committed.
- TableWidgets.TableWidget.SetItem: a column past the end is ignored on every row. Qt writes it to the next row's first cell when there is a next row. The window makes such a write only on the last row, where both agree.
- Db.DbFile: an environment error is modelled as permanent for the file, through the constant `accessible`. So one failing call among successful ones, such as a transiently locked database, cannot be expressed. An example is an insert that fails while the reload after it succeeds.
- PasswordsTable.NextId: SQLite's choice of a random unused id once the largest id is 2^63-1 is not modelled, because ids are unbounded integers here.
- SqlLike.Like: SQLite's maximum pattern length and non-ASCII case folding (which needs ICU) are not modelled.
- Complexity.EvaluateComplexity: `\d` is taken as the ASCII digits. Python's `re` also matches other Unicode decimal digits, so for such passwords the model's score can be one lower.
- PyText.ParseInt: only the spellings that `str(n)` produces are parsed. Python's `int()` also accepts blanks, `+`, underscores and non-ASCII digits.
- PasswordManagerWindow.PasswordManager.ToggleTheme: only the flag is modelled, not the palette it installs.
- PasswordManagerWindow.PasswordManager.SaveGeneratedPassword: the `except` branch is not modelled. `add_password` never raises, apart from its debug `print`, which is left out, because `execute_query` swallows every error.
- PasswordGen.PasswordGenerator.Generate: the statistical quality of `random.choice` is out; the draws are an input.
- Encryption and key management do not exist in this code, so they are not modelled.
