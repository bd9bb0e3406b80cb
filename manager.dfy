/** The password manager object: the `passwords` table held in its database
    file and the table view that shows it, with the handlers that change
    them. Dialogs are replaced by their answers: the values typed into an
    editor, the current selection and the answer to the confirmation. */
module Manager {
  import opened Records
  import opened Table
  import opened Listing

  /** The result of saving an editor dialog. */
  datatype SaveOutcome =
    | Saved           // the statement was committed and the view refreshed
    | MissingField    // "all fields must be filled in": nothing is written
    | DatabaseError   // the database refused the statement: nothing is written

  /** The result of the delete button. */
  datatype DeleteOutcome =
    | NotSelected     // no item selected: nothing happens
    | RowGone         // the selected id is not in the table: the handler raises
    | Declined        // the user answered no to the confirmation
    | Deleted         // the row was deleted and the view refreshed

  /** The result of the edit button: the editor opens prefilled, or not. */
  datatype EditorOutcome =
    | SelectFirst                          // no item selected: a warning is shown
    | EditorFailed                         // the selected id is not in the table: the handler raises
    | Editing(id: string, fields: Record)  // an editor for `id`, prefilled with `fields`

  /** Opening the editor for the current selection: the selected row's
      current record, read from the table. */
  function OpenEditor(rows: seq<Row>, selection: seq<string>): (e: EditorOutcome)
    ensures e == SelectFirst <==> selection == []
    ensures e == EditorFailed <==> selection != [] && selection[0] !in Ids(rows)
    ensures e.Editing? ==> e.id == selection[0] && Row(e.id, e.fields) in rows
  {
    if selection == [] then SelectFirst
    else
      match Find(rows, selection[0])
      case None => EditorFailed
      case Some(rec) => Editing(selection[0], rec)
  }

  class PasswordManager {
    /** The `passwords` table of the database file; None while it does not exist. */
    var table: Option<seq<Row>>
    /** The items of the table view, in display order. */
    var tree: seq<ViewItem>

    /** Whenever the table exists, the primary-key constraint holds and no
        row is stored under the empty id (the view could not show it). */
    ghost predicate KeysUnique()
      reads this
    {
      table.Some? ==> DistinctIds(table.value) && "" !in Ids(table.value)
    }

    /** After construction: the table exists, obeys its key, and the view
        shows it as the last refresh left it. */
    ghost predicate Valid()
      reads this
    {
      table.Some? && DistinctIds(table.value) && "" !in Ids(table.value) && tree == View(table.value)
    }

    /** Opening the application on a database file whose `passwords` table
        is `disk` (None when the table does not exist yet). */
    constructor (disk: Option<seq<Row>>)
      requires disk.Some? ==> DistinctIds(disk.value) && "" !in Ids(disk.value)
      ensures Valid()
      ensures disk.Some? ==> table == disk
      ensures disk.None? ==> table == Some([])
    {
      table := disk;
      tree := [];
      new;
      CreateDb();
      tree := [];
      LoadData();
      CreateDb();
    }

    /** `CREATE TABLE IF NOT EXISTS`: creates an empty table when there is
        none and never removes or alters existing rows. */
    method CreateDb()
      requires KeysUnique()
      modifies this`table
      ensures KeysUnique() && table.Some?
      ensures old(table).Some? ==> table == old(table)
      ensures old(table).None? ==> table == Some([])
    {
      if table.None? {
        table := Some([]);
      }
    }

    /** Clears the view and refills it with one item per stored row. */
    method LoadData()
      requires table.Some?
      modifies this`tree
      ensures tree == View(table.value)
    {
      tree := [];
      var rows := table.value;
      var i := 0;
      while i < |rows|
        invariant 0 <= i <= |rows|
        invariant tree == View(rows[..i])
      {
        tree := tree + [Item(rows[i])];
        i := i + 1;
      }
      assert rows[..i] == rows;
    }

    /** Saving the add dialog: `id` is the fresh identifier generated for
        the new row and `rec` the values typed in. */
    method Add(id: string, rec: Record) returns (outcome: SaveOutcome)
      requires Valid()
      modifies this
      ensures Valid()
      ensures outcome == MissingField <==> !AllFilled([id] + Values(rec))
      ensures outcome == DatabaseError <==> AllFilled([id] + Values(rec)) && id in Ids(old(table).value)
      ensures outcome == Saved ==> table == Insert(old(table).value, id, rec)
      ensures outcome != Saved ==> table == old(table) && tree == old(tree)
    {
      if !AllFilled([id] + Values(rec)) {
        return MissingField;
      }
      var inserted := Insert(table.value, id, rec);
      if inserted.None? {
        return DatabaseError;
      }
      InsertEffect(table.value, id, rec);
      assert ([id] + Values(rec))[0] == id;
      table := inserted;
      LoadData();
      outcome := Saved;
    }

    /** The delete button: `selection` is the view's selection and
        `confirmed` the answer to "delete this record?". */
    method Delete(selection: seq<string>, confirmed: bool) returns (outcome: DeleteOutcome)
      requires Valid()
      modifies this
      ensures Valid()
      ensures selection == [] ==> outcome == NotSelected
      ensures selection != [] && selection[0] !in Ids(old(table).value) ==> outcome == RowGone
      ensures selection != [] && selection[0] in Ids(old(table).value) ==>
        outcome == if confirmed then Deleted else Declined
      ensures outcome == Deleted ==> table == Some(Remove(old(table).value, selection[0]))
      ensures outcome != Deleted ==> table == old(table) && tree == old(tree)
    {
      if selection == [] {
        return NotSelected;
      }
      var id := selection[0];
      if Find(table.value, id).None? {
        return RowGone;
      }
      if !confirmed {
        return Declined;
      }
      RemoveKeepsDistinct(table.value, id);
      table := Some(Remove(table.value, id));
      LoadData();
      outcome := Deleted;
    }

    /** Saving the edit dialog opened for `id`: all five columns of that row
        are replaced by `rec`. An id that is no longer stored matches no row,
        and the save still succeeds. */
    method Update(id: string, rec: Record) returns (outcome: SaveOutcome)
      requires Valid()
      modifies this
      ensures Valid()
      ensures outcome != DatabaseError
      ensures outcome == MissingField <==> !AllFilled(Values(rec) + [id])
      ensures outcome == Saved ==> table == Some(Replace(old(table).value, id, rec))
      ensures outcome == Saved && id !in Ids(old(table).value) ==> table == old(table)
      ensures outcome == MissingField ==> table == old(table) && tree == old(tree)
    {
      if !AllFilled(Values(rec) + [id]) {
        return MissingField;
      }
      ReplaceKeepsIds(table.value, id, rec);
      table := Some(Replace(table.value, id, rec));
      LoadData();
      outcome := Saved;
    }
  }
}
