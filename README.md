# Student management: the handler logic, verified

`studentManagement.py` is a Tkinter form over a MySQL table `students`. It has
seven text entries, three choices (branch, course, gender), a date picker,
a record list, and five buttons: Save, Update, Delete, Search and Clear.
Clicking a row of the list copies it into the form. This project models the
deterministic part of those handlers and proves what they do:

- `Text`: Python's `str.strip` and `isspace`, the `key.lower().replace(' ', '_')`
  column naming, `", ".join`, and a character count that matches `%s`
  placeholders with parameters.
- `Dates`: the picker's date, the `%Y-%m-%d` text a save writes, and the
  `yyyy-mm-dd` text a picked row hands back to the picker. Both directions
  of that round trip are proved.
- `Students`: the table as a sequence of eleven-value rows. It covers the
  roll-number lookup, the INSERT and the DELETE. Uniqueness of roll numbers
  is shown to be kept by every change.
- `Form`: the form as a value. It covers clearing it, copying a picked row
  into it, the row a save builds from it, `validate_entry`, and the `all(...)`
  gate of the save handler.
- `Search`: the `filters` dictionary, and the loop that appends
  `AND <column> LIKE %s` and `%value%` for each non-empty value.
- `Update`: the `updated_data` dictionary, the `changes_made` loop, the loop
  that builds the `SET` list and its values, and what the statement does to
  the table.
- `Handlers`: each button handler as a function from the screen before to
  the screen after and the message it ends with. This module holds the
  lemmas about outcomes, table effects and uniqueness.
- `App`: the class `Session`, whose fields are the form's widgets, the table
  and the record list. Its methods run the handlers step by step, with the
  source's loops. Each method is proved equal to the function of the same
  handler in `Handlers`.

The database's failure is a parameter `dbUp` of each handler: either every
statement of that handler succeeds or the first one raises. The picked row
(`tree.focus()`'s values) is an `Option<Row>` parameter, `None` when no row is
selected. Today's date is a parameter. The rows a search returns are a
parameter too, because `LIKE` matching happens inside MySQL.

Two positional quirks of the code are modelled as written and stated as
lemmas:

- The update handler's ten values skip the roll number but are compared
  position by position with `record[0..9]`. So the email entry is compared
  with the roll number (`Update.EmailComparedWithRoll`). Pressing Update
  right after picking a row whose date reads as `yyyy-mm-dd` therefore
  overwrites the row's address with its branch, unless the branch equals
  the date text, and changes nothing else (`Update.RedisplayedUpdate`).
- Picking a row copies `record[6]`, the branch, into the address entry
  (`Form.SelectSavedRow`, `Update.RedisplayedData`).

The handlers behave as follows, and the model does the same:

- The update handler runs no input check.
- The delete handler asks for no confirmation.
- After a failed delete the form is kept (`Handlers.DeleteEffect`).
- A duplicate roll number on save returns before the record list is
  reloaded.

## Model

| member | source | states |
|---|---|---|
| Text.Strip | studentManagement.py:22 | `entry.get().strip()` is empty exactly when every character of the text is white space in Python's sense |
| Text.IsSpace | studentManagement.py:22 | no contract of its own; `Text.Strip` and `Text.StripTrims` state what it decides |
| Text.StripTrims | studentManagement.py:22 | `strip` keeps one contiguous piece of the text and removes only white space around it; a non-empty result neither starts nor ends with white space |
| Text.ColumnName | studentManagement.py:160 | `key.lower().replace(' ', '_')` keeps the key's length, turns each space into `_` and each capital into its lower-case letter, leaves no space and no capital letter, and keeps every other character |
| Text.LowerChar | studentManagement.py:160 | no contract of its own; `Text.ColumnName` states what it does to each character |
| Text.CountJoin | studentManagement.py:163 | joining parts that hold one `%` each, with a separator that holds none, gives one `%` per part |
| Text.Join | studentManagement.py:163 | no contract of its own; `Text.CountJoin` and `Update.UpdateTextPlaceholders` state it |
| Dates.FormatIso | studentManagement.py:90 | `strftime("%Y-%m-%d")` gives ten characters: four digits, a dash, two digits, a dash, two digits |
| Dates.ParseIso | studentManagement.py:65 | text that `set_date` accepts as `yyyy-mm-dd` always denotes a valid calendar date |
| Dates.ParseFormat | studentManagement.py:90 | a date written the way save writes it reads back as the same date |
| Dates.FormatParse | studentManagement.py:65 | text that reads as a date is exactly how that date would be written again |
| Dates.ValueOfDigits | studentManagement.py:90 | writing a number in a fixed number of digits and reading it back gives the number |
| Dates.DigitsOfValue | studentManagement.py:65 | reading a digit string and writing it back at the same width gives the string |
| Students.ColumnsHaveNoPlaceholder | studentManagement.py:348 | no column name contains `%` |
| Students.DobColumn | studentManagement.py:348 | `dob` names the tenth column and no other |
| Students.HasRoll | studentManagement.py:72-76 | no contract of its own; `Students.Insert`, `Students.DeleteRollRemoves`, `Handlers.SaveSucceeds` and `Handlers.SaveFails` state it |
| Students.Insert | studentManagement.py:94-99 | the INSERT adds exactly one row: one more row, the new roll number present, every other row kept as often as before |
| Students.DeleteRoll | studentManagement.py:187-188 | the DELETE removes every row with the roll number and keeps every other row as often as before |
| Students.DeleteRollKeeps | studentManagement.py:187-188 | after the DELETE, a row is present exactly when it was present before and has a different roll number |
| Students.DeleteRollRemoves | studentManagement.py:187-188 | after the DELETE, no row has the roll number |
| Students.InsertKeepsUnique | studentManagement.py:72-99 | inserting a roll number the duplicate check did not find keeps roll numbers unique |
| Students.DeleteKeepsUnique | studentManagement.py:187-188 | deleting keeps roll numbers unique |
| Form.Cleared | studentManagement.py:7-17 | no contract of its own; `Form.ClearedIsRejected`, `Search.ClearedSearchesAll` and `App.Session.ClearEntries` state it |
| Form.Displayed | studentManagement.py:51-65 | no contract of its own; `Form.SelectSavedRow`, `Update.RedisplayedData` and `App.Session.DisplaySelectedRecord` state it |
| Form.NewRow | studentManagement.py:80-97 | no contract of its own; `Form.SelectSavedRow` and `Update.UpdatedData` state it |
| Form.Fields | studentManagement.py:266-275 | no contract of its own; `Form.ValidateFormPasses` and `Form.ValidateFormReportsEntry` state it |
| Form.Message | studentManagement.py:23-33 | no contract of its own; `Form.MessagesDistinct` states it |
| Form.MessagesDistinct | studentManagement.py:23-33 | the input-error messages for the form's labels are all different: two are equal exactly when the errors are |
| Form.ValidateEntry | studentManagement.py:20-35 | no contract of its own; `Form.EntryRules` states it |
| Form.ValidateAll | studentManagement.py:69 | no contract of its own; `Form.AllPass` and `Form.FailingField` state it |
| Form.ValidateForm | studentManagement.py:69 | no contract of its own; `Form.ValidateFormPasses`, `Form.ValidateFormReportsChoice` and `Form.ValidateFormReportsEntry` state it |
| Form.SelectSavedRow | studentManagement.py:55-65 | saving a form and then picking the saved row gives the form back, except that the address entry receives the branch; the saved row's roll number is the roll-number entry |
| Form.EntryRules | studentManagement.py:20-35 | a text entry fails with "<label> is required." exactly when it is blank; otherwise it fails on a missing branch, then course, then gender; it passes exactly when all four hold; a non-entry always passes |
| Form.AllPass | studentManagement.py:69 | `all(validate_entry(e) for e in entries)` holds exactly when every entry passes |
| Form.FailingField | studentManagement.py:69 | a failing `all(...)` stops at a failing entry and every entry before it passes, so the first failure's message is the one shown |
| Form.ValidateFormPasses | studentManagement.py:20-35 | the save gate opens exactly when all seven entries are non-blank and branch, course and gender are chosen |
| Form.ValidateFormReportsChoice | studentManagement.py:26-33 | the branch, course or gender message is shown exactly when the first name is filled in and that choice is the first one missing, whatever the later entries hold |
| Form.FirstFailure | studentManagement.py:69 | the entry a failing gate reports comes after only non-blank entries, and after all three choices are made unless it is the first |
| Form.ValidateFormReportsEntry | studentManagement.py:22-25 | entry i is reported as required exactly when it is the first blank entry and, unless it is the first name, all three choices are made |
| Form.ReportedEntryIsFirstBlank | studentManagement.py:22-25 | an entry reported as required is blank, every earlier entry is filled in, and all choices are made unless it is the first |
| Form.FirstBlankIsReported | studentManagement.py:22-25 | the first blank entry, with all choices made unless it is the first, is the one reported |
| Form.LabelsDistinct | studentManagement.py:259-264 | the seven labels are pairwise different |
| Form.ClearedIsRejected | studentManagement.py:7-17 | a freshly cleared form fails the gate with "Enter First Name is required." |
| Search.SearchBaseHasNoPlaceholder | studentManagement.py:210 | the fixed query contains no `%` |
| Search.FilterColumnsInOrder | studentManagement.py:197-208 | the filters name every column except `dob`, each once, in table order |
| Search.Filters | studentManagement.py:197-208 | there are ten filters; `Search.FilterPairs` states their columns and values |
| Search.FilterPairs | studentManagement.py:197-208 | the filters carry the first six entries under the first six columns, then the branch, course and gender choices, and the address entry under `address` |
| Search.DobNeverFiltered | studentManagement.py:197-208 | no filter is on `dob` |
| Search.Applied | studentManagement.py:213-214 | no contract of its own; `Search.AppliedMembers`, `Search.AppliedCount`, `Search.AppliedNone` and `Search.AppliedFrom` state it |
| Search.Condition | studentManagement.py:215 | no contract of its own; `Search.ConditionPlaceholder` states it |
| Search.Query | studentManagement.py:213-215 | no contract of its own; `Search.AddFilters` and `Search.PlaceholdersMatch` state it |
| Search.Patterns | studentManagement.py:216 | one pattern per filter; `Search.AddFilters` and `Search.SearchParameterCount` state it |
| Search.AddFilters | studentManagement.py:213-216 | the loop appends ` AND <column> LIKE %s` and `%value%` for exactly the filters with a value, in their order |
| Search.AppliedMembers | studentManagement.py:214 | the filters that take part are exactly those with a value, as often as given |
| Search.AppliedCount | studentManagement.py:214 | as many filters take part as have a value |
| Search.AppliedNone | studentManagement.py:214 | no filter takes part exactly when every value is empty |
| Search.AppliedFrom | studentManagement.py:213-214 | every filter that takes part is one of the filters given |
| Search.PlaceholdersMatch | studentManagement.py:215 | each appended condition adds exactly one placeholder |
| Search.SearchParameterCount | studentManagement.py:211-216 | the search sends one parameter per non-empty form value |
| Search.SearchColumns | studentManagement.py:197-215 | every condition names a table column other than `dob` |
| Search.SearchPlaceholders | studentManagement.py:210-222 | the search query holds exactly as many placeholders as it sends parameters |
| Search.FilterValuesEmpty | studentManagement.py:197-208 | every filter value is empty exactly when every entry and every choice is empty |
| Search.SearchBare | studentManagement.py:210-216 | the bare `... WHERE 1=1` query is sent exactly when every entry and choice is empty |
| Search.ClearedSearchesAll | studentManagement.py:210-216 | a cleared form sends the bare query with no parameter |
| Update.KeyColumnsInOrder | studentManagement.py:129-140 | the ten keys name ten different columns, none of them the roll number, in table order |
| Update.KeyNamesColumn | studentManagement.py:160 | `key.lower().replace(' ', '_')` of each key is the name of the column it updates |
| Update.UpdatedData | studentManagement.py:129-140 | ten values; each is what a save of the same form writes to the column its key names |
| Update.Changed | studentManagement.py:158-159 | every listed position is a position of the values; `Update.ChangedPositions` and `Update.ChangedNone` state it |
| Update.ChangedPositions | studentManagement.py:158-159 | a position is listed exactly when its value differs from `record[i]`; the positions are increasing |
| Update.ChangedNone | studentManagement.py:143-147 | nothing is listed exactly when every value equals `record[i]` |
| Update.EmailComparedWithRoll | studentManagement.py:129-147 | the email entry counts as changed exactly when it differs from the picked row's roll number |
| Update.ChangesMade | studentManagement.py:143-147 | `changes_made` is true exactly when some position i in 0..9 has a value different from `record[i]` |
| Update.Assignments | studentManagement.py:158-160 | one assignment per listed position; `Update.BuildUpdate`, `Update.AssignmentsNonEmpty` and `Update.AssignmentPlaceholder` state it |
| Update.Picked | studentManagement.py:158-161 | one value per listed position; `Update.BuildUpdate` and `Update.UpdatePlaceholders` state it |
| Update.UpdateText | studentManagement.py:154-163 | no contract of its own; `Update.BuildUpdate` and `Update.UpdateTextPlaceholders` state it |
| Update.BuildUpdate | studentManagement.py:153-164 | the statement is `UPDATE students SET ` plus `<column>=%s` for each differing position in key order, joined by `, `, plus ` WHERE roll_number=%s`; the values are the differing values in order, then `record[2]` |
| Update.AssignmentsNonEmpty | studentManagement.py:143-161 | the `SET` list is non-empty exactly when `changes_made` holds |
| Update.AssignmentPlaceholder | studentManagement.py:160 | each assignment holds exactly one placeholder |
| Update.UpdateTextPlaceholders | studentManagement.py:154-163 | the text around the assignments adds exactly one placeholder |
| Update.UpdatePlaceholders | studentManagement.py:154-164 | the statement holds exactly as many placeholders as it has values |
| Update.Apply | studentManagement.py:167 | no contract of its own; `Update.ApplyEffect` states it |
| Update.ApplyEffect | studentManagement.py:158-167 | after the assignments, each column a key names holds the key's value when its position is listed and is unchanged otherwise; the roll number never changes |
| Update.UpdateRows | studentManagement.py:167 | the UPDATE keeps the number of rows and leaves rows with other roll numbers unchanged |
| Update.UpdateRowsEffect | studentManagement.py:167 | in rows with the roll number, each listed column takes the new value; every other column and row is kept, roll numbers included |
| Update.UpdateKeepsUnique | studentManagement.py:167 | the UPDATE keeps roll numbers unique |
| Update.RedisplayedData | studentManagement.py:129-140 | after picking a row with a readable date, the ten collected values are the row's values 0, 1, 3 to 9, then 6 again |
| Update.ApplyRedisplayed | studentManagement.py:158-167 | values that agree with a row except that the address holds the branch change only the address, to the branch, and only when the branch differs from the date text |
| Update.RedisplayedUpdate | studentManagement.py:129-167 | for a picked row whose date reads as `yyyy-mm-dd`, the statement the update handler sends right after the pick, applied to that row, overwrites its address with its branch, unless the branch equals the date text, and changes nothing else |
| Handlers.PickThenUpdate | studentManagement.py:51-174 | in a table with unique roll numbers, clicking one of its rows whose date reads as `yyyy-mm-dd` and pressing Update with the database answering keeps the table's length, overwrites that row's address with its branch unless the branch equals the date text, and leaves every other row and column as it was |
| Handlers.SaveSucceeds | studentManagement.py:68-102 | the save goes through exactly when the gate opens, the database answers and the roll number is not in the table; then the form's row is added, the form cleared and the list reloaded |
| Handlers.SaveFails | studentManagement.py:68-105 | a save that does not go through keeps the table and the form; the input error is shown exactly when the gate fails, and the duplicate error exactly when the roll number is already present; after a duplicate nothing changes, the list included; after an input error the list is reloaded (or emptied when the database is down), and after a database error it is empty |
| Handlers.SaveKeepsUnique | studentManagement.py:72-99 | saving keeps roll numbers unique, and a saved roll number is in the table |
| Handlers.ModifyOutcome | studentManagement.py:120-174 | no selection warns; no change reports an error exactly when every value equals `record[i]`; the update goes through exactly when a row is picked, some value differs and the database answers, and then the form is cleared and the list shows the table |
| Handlers.ModifyFails | studentManagement.py:121-174 | an update that does not go through keeps the table and the form; with no selection or no change nothing at all changes; after a database error the list is empty |
| Handlers.ModifyEffect | studentManagement.py:166-170 | a successful update sets, in rows with the picked roll number, each column whose value differed, and keeps every other column, row and roll number |
| Handlers.ModifyKeepsUnique | studentManagement.py:166-168 | updates keep roll numbers unique |
| Handlers.DeleteEffect | studentManagement.py:177-194 | a delete goes through exactly when a row is picked and the database answers; then exactly the rows with its roll number are gone, the form is cleared and the list shows the table; otherwise the table and the form are unchanged, with no row picked nothing changes at all, and after a database error the list is empty |
| Handlers.DeleteKeepsUniqueRolls | studentManagement.py:186-189 | deletes keep roll numbers unique |
| Handlers.ClearThenSave | studentManagement.py:7-17 | saving right after Clear fails with "Enter First Name is required." |
| Handlers.ShowAll | studentManagement.py:106-118 | no contract of its own; `App.Session.ShowAllRecords` is proved to agree with it |
| Handlers.Clear | studentManagement.py:7-18 | no contract of its own; `Handlers.ClearThenSave` and `App.Session.ClearEntries` state it |
| Handlers.Display | studentManagement.py:51-65 | no contract of its own; `App.Session.DisplaySelectedRecord` is proved to agree with it |
| Handlers.Save | studentManagement.py:68-105 | no contract of its own; `Handlers.SaveSucceeds`, `Handlers.SaveFails` and `Handlers.SaveKeepsUnique` state it |
| Handlers.Modify | studentManagement.py:120-174 | no contract of its own; `Handlers.ModifyOutcome`, `Handlers.ModifyFails`, `Handlers.ModifyEffect` and `Handlers.ModifyKeepsUnique` state it |
| Handlers.Delete | studentManagement.py:177-194 | no contract of its own; `Handlers.DeleteEffect` and `Handlers.DeleteKeepsUniqueRolls` state it |
| Handlers.Find | studentManagement.py:218-227 | no contract of its own; `Handlers.FindEffect` and `App.Session.SearchRecords` state it |
| Handlers.FindEffect | studentManagement.py:218-227 | a search changes only the list: it shows the rows returned, or nothing with a database error exactly when the query raises |
| App.Session.constructor | studentManagement.py:365 | at start-up the form is empty and dated today, and the list shows the table, or nothing if the query fails |
| App.Session.ShowAllRecords | studentManagement.py:106-118 | the list is reloaded from the table, or emptied when the query fails |
| App.Session.ClearEntries | studentManagement.py:7-18 | the entry loop empties all seven entries; the choices are emptied, the date set to today and the list reloaded |
| App.Session.DisplaySelectedRecord | studentManagement.py:51-65 | the loop copies `record[i]` into entry i for i in 0..6; the choices take `record[6..8]`; the date takes `record[9]` when it reads as a date; with no selection nothing changes |
| App.Session.SaveDetails | studentManagement.py:68-105 | the widgets, table and list end as `Handlers.Save` says, with its message |
| App.Session.UpdateRecord | studentManagement.py:120-174 | the widgets, table and list end as `Handlers.Modify` says; when a statement is sent, it is the one `BuildUpdate` specifies |
| App.Session.DeleteRecord | studentManagement.py:177-194 | the widgets, table and list end as `Handlers.Delete` says |
| App.Session.SearchRecords | studentManagement.py:196-227 | the query and parameters are those built from the filters with a value, in order; the list and the message end as `Handlers.Find` says |

## Left out

- Widget construction, layout, styling, scrollbars and column headings are not modelled. They are UI only.
- Message boxes are not modelled as side effects. Each button handler, search included, ends with an `Outcome` value naming the message box it shows; `Form.Message` gives the input-error texts.
- The "Database Error" box of the list refresh (`show_all_records`, also run by `clear_entries` and at the end of save, update and delete) is not named: `Handlers.ShowAll` and `Handlers.Clear` return only the screen, so a failed refresh shows only as an emptied list, and the second box a handler shows after its own message is not recorded.
- The pymysql connection, cursor, `commit`, `close` and the start-up connection are not modelled. A handler's database failure is the single parameter `dbUp`; a failure between two statements of one handler is not distinguished.
- MySQL's `LIKE` matching, its collation, and its case-insensitive comparison of roll numbers are not modelled. The duplicate check, the UPDATE's `WHERE roll_number=%s` and the DELETE compare roll numbers exactly, and search results are a parameter.
- Treeview turning numeric-looking values into integers is not modelled. All row values are strings, so `record[i]` compares as text.
- `move_focus` and the `focus()` call inside `validate_entry` are not modelled. They only move the keyboard focus.
- `on_closing` is not modelled. It only asks before closing the connection and the window.
- `tree.selection_remove` in `clear_entries` is not modelled, because the selection is a parameter of each handler.
- Dates.ParseIso: `set_date` is modelled as a strict `yyyy-mm-dd` parse. tkcalendar's more lenient parsing of other spellings is not. A row whose date does not parse leaves the picker unchanged, as the raised exception would.
- Dates.FormatIso: years are always written with four digits. Platform-dependent padding of years below 1000 by `strftime` is not modelled.
- Text.ColumnName: only ASCII letters are lowered. Python's `lower()` on other letters is not modelled; the ten keys are ASCII.
- Text.Strip: Python's white-space set is modelled for the characters listed in `Text.IsSpace`. It is not derived from the Unicode database.
- Search.Filters: its own contract gives only the number of filters. Each filter's column and value are stated by the lemma `Search.FilterPairs`.
- Search.SearchBaseHasNoPlaceholder: the column list of the fixed query is written out as text. It is not proved equal to a join of the `columns` tuple.
- The date picker's value is a `Date`, not a string, because the save and update handlers only see it through `get_date()`.
