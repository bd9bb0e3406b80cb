# KeyPass credential store, modelled in Dafny

KeyPass is a small desktop password manager. It keeps credential records in
one SQLite table, `passwords`. Each row has a text primary key `id` and five
text columns: `name`, `login`, `password`, `description` and `url`. A table
view lists the rows, with each password replaced by asterisks. A
double-click on a cell copies that cell's value. Three buttons add, delete
and edit records.

This project models the state behind that window:

- `records.dfy` (module `Records`): the record, the all-fields-filled check
  and the password mask.
- `table.dfy` (module `Table`): the table as a sequence of rows in storage
  order. `Insert`, `Replace` and `Remove` give the effect of the `INSERT`,
  `UPDATE` and `DELETE` statements. Lemmas state what each one does to keys
  and lookups.
- `listing.dfy` (module `Listing`): the projection `load_data` shows, one
  item per row.
- `clipboard.dfy` (module `Clipboard`): the column dispatch of the
  double-click handler.
- `manager.dfy` (module `Manager`): the class `PasswordManager`. It holds
  the table (`None` until it is created) and the items of the view. Its
  constructor and methods mirror `__init__`, `create_db`, `load_data` and
  the two save handlers and the delete handler. Each method states the new
  table as a function of the old one. It also keeps the invariant that the
  primary key holds and the view shows the current table.

Dialogs are replaced by their answers. The typed values, the current
selection (a sequence of item ids, as `selection()` returns) and the answer
to the delete confirmation are parameters. The `uuid4()` string of a new
row is a parameter too. A handler that raises in the source is modelled as
an error outcome with no change of state. This happens when `fetchone()`
returns `None` for a missing row.

Storage order is SQLite's rowid order. An insert appends a row, an update
keeps the row in place, and a delete removes it. `SELECT *` without
`ORDER BY` lists the rows in this order, so the view shows them in this
order too.

A store could report an update of a missing id as an error. This code does
not, and the model follows the code: saving the edit dialog for an id that
is no longer stored matches no row in the `UPDATE`, and "success" is
reported. This can happen because the edit dialog is not modal,
so the row can be deleted while the dialog is open. `Manager.PasswordManager.Update`
returns `Saved` and leaves the table unchanged in that case.

## Model

| member | source | states |
|---|---|---|
| `Records.AllFilled` | main.py:177 | the check passes exactly when no value is the empty string |
| `Records.Mask` | main.py:89 | the mask has the password's length and consists only of `*`, so an empty password masks to the empty string |
| `Records.MaskRevealsOnlyLength` | main.py:89 | two passwords have the same mask exactly when they have the same length |
| `Table.Find` | main.py:215-216 | a lookup by id finds a record exactly when the id is stored, and the record found is that of the first row stored under that id |
| `Table.FindAt` | main.py:27-28 | under the primary key, the row at any position is the one found by its id |
| `Table.Insert` | main.py:182-183 | an insert is refused exactly when the id is already a key |
| `Table.FindAppend` | main.py:182-183 | appending a row changes what is found only under its own id, and only if that id was not stored |
| `Table.InsertEffect` | main.py:169-188 | a successful insert adds one row after the old ones and one key, keeps the key unique, and stores the new record under the new id; all other lookups are unchanged; an existing id is refused |
| `Table.Replace` | main.py:256-262 | the update keeps the length, puts the new record at every position holding the id, and leaves every other position unchanged |
| `Table.FindAfterReplace` | main.py:256-262 | after an update, the id holds the new record if it was stored, and every other id holds its old record |
| `Table.ReplaceKeepsIds` | main.py:256-262 | an update keeps the set of keys and the primary key; on an id that is not stored it changes nothing |
| `Table.Remove` | main.py:202 | after a delete, the keys are the old keys without the id |
| `Table.RemoveAbsent` | main.py:202 | deleting an id that is not stored changes nothing |
| `Table.RemoveAt` | main.py:202 | under the primary key, deleting a stored id removes exactly its row and keeps the others in order |
| `Table.RemoveKeepsDistinct` | main.py:202 | a delete keeps the primary key |
| `Table.FindAfterRemove` | main.py:202 | after a delete nothing is found under the id, and every other id holds its old record |
| `Listing.Displayed` | main.py:89-90 | an item shows the five columns in order; each is the stored value except the password column, which shows the mask |
| `Listing.View` | main.py:87-90 | the view has one item per row, in storage order, and item i shows row i |
| `Listing.ItemValues` | main.py:115 | the values read from the view are found exactly when an item has that id, and they are that item's values |
| `Listing.ListedOnce` | main.py:87-90 | every stored id appears as the id of exactly one item, and no other id appears |
| `Listing.ItemValuesOfView` | main.py:87-90 | the view shows a stored id's record with the password masked, and shows nothing for an id that is not stored |
| `Clipboard.CopyCell` | main.py:92-121 | a click outside a cell, on no row, or on a column outside 1..5 copies nothing; any other click copies unless its lookup fails (the row missing from the table for the password column, the item or its value missing from the view otherwise); a copy shows that column's notice; the password column copies the plaintext from the table; other columns copy the value shown in the view |
| `Clipboard.CopyGivesPlaintext` | main.py:103-116 | while the view matches the table, a click on column c of a stored row copies that field's stored plaintext value, the password included; a column outside 1..5 copies nothing |
| `Manager.OpenEditor` | main.py:206-216 | with no selection it warns; on a missing row it fails; otherwise it opens the editor on the selected id, prefilled with the stored record |
| `Manager.PasswordManager.constructor` | main.py:9-17 | opening the application keeps an existing table unchanged, or creates an empty one; afterwards the view shows the table, and no row has the empty id |
| `Manager.PasswordManager.CreateDb` | main.py:24-34 | create-if-absent: an existing table is left unchanged, and a missing one is created empty |
| `Manager.PasswordManager.LoadData` | main.py:81-90 | after the refresh the view is exactly the projection of the table |
| `Manager.PasswordManager.Add` | main.py:167-188 | an empty field, the id included, gives MissingField; a stored id gives DatabaseError; on both, table and view are unchanged; otherwise the table is the insert of the new row, and the key and the view stay consistent |
| `Manager.PasswordManager.Delete` | main.py:192-204 | no selection, a missing row or a declined confirmation changes nothing; a confirmed delete removes the selected id's row, and the key and the view stay consistent |
| `Manager.PasswordManager.Update` | main.py:241-268 | an empty field gives MissingField and changes nothing; otherwise every column of the id's row is replaced; an id that is not stored is saved without error and nothing changes; never a database error |

## Left out

- Widget construction, layout, scrollbars, event binding and dialog windows
  (main.py:36-79, 147-165, 219-239) are not modelled. Dialogs appear only
  through the values they return.
- The clipboard write and the self-closing notice with its 1000 ms timer are
  not modelled (main.py:119-144). `Clipboard.CopyCell` returns the copied
  value and the notice text instead.
- The database-file location through `sys._MEIPASS` or the working
  directory is not modelled (main.py:19-22). The constructor takes the
  table as found in the file.
- The SQLite connection, cursors and commit durability are not modelled. A
  committed statement is the state change taking effect. Storage faults
  (I/O errors, corruption) are not modelled, so `Add` reports
  `DatabaseError` only for a duplicate key.
- `uuid.uuid4()` is not modelled: the new id is a parameter. The model does
  not capture that generated ids are practically never repeated, so an id
  deleted earlier may be inserted again.
- Message boxes are not modelled. Errors, warnings and the success notice
  are outcome values, and the delete confirmation is a boolean parameter.
- `Manager.PasswordManager.Delete` does not return the record name that the
  confirmation question shows.
- Whether the add or edit dialog stays open after an error is not modelled.
- `NULL` column values are not modelled: every column is a string. The
  source's `if row[3]` guard treats a `NULL` password like an empty one.
  The application itself only ever writes strings.
- A database file holding a row whose id is the empty string is not
  modelled: the constructor requires that no stored id is empty. In the
  source, `load_data` would insert an item with the empty identifier, which
  is the view's root item, so `insert` raises and the application does not
  open (main.py:16, main.py:90). `Add` and `Update` never write such an id.
- Tk may convert values read back from the view (`item(iid, 'values')`),
  for example a numeric-looking string to a number, before they reach the
  clipboard. This is not modelled: values come back as they were shown.
