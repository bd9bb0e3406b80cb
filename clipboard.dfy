/** The copy-on-double-click dispatch of the table view: which value a
    double-click on a cell puts on the clipboard, and which notice is shown. */
module Clipboard {
  import opened Records
  import opened Table
  import opened Listing

  /** The notices shown after a copy, one per column in column order. */
  const CopyNotices: seq<string> :=
    ["Название скопировано", "Логин скопирован", "Пароль скопирован", "Описание скопировано", "URL скопирован"]

  datatype CopyOutcome =
    | Ignored                                  // the click copies nothing
    | Failed                                   // the handler raises: the looked-up item or row is missing
    | Copied(value: string, notice: string)    // `value` goes to the clipboard, `notice` is shown

  /** A double-click at a point the view reports as region `onCell`, row
      `item` (empty when no row is there) and display column `#column`. The
      password column is read from the table, in plaintext; every other
      column is read from the values the view displays. */
  function CopyCell(tree: seq<ViewItem>, rows: seq<Row>, onCell: bool, item: string, column: int): (c: CopyOutcome)
    ensures !onCell || item == "" || column < 1 || column > |Columns| ==> c == Ignored
    ensures onCell && item != "" && 1 <= column <= |Columns| ==>
      c != Ignored &&
      (c.Failed? <==>
        if Columns[column - 1] == "password" then Find(rows, item).None?
        else ItemValues(tree, item).None? || column > |ItemValues(tree, item).value|)
    ensures c.Copied? ==> 1 <= column <= |Columns| && c.notice == CopyNotices[column - 1]
    ensures c.Copied? && Columns[column - 1] == "password" ==>
      Find(rows, item).Some? && c.value == Find(rows, item).value.password
    ensures c.Copied? && Columns[column - 1] != "password" ==>
      var shown := ItemValues(tree, item);
      shown.Some? && column <= |shown.value| && c.value == shown.value[column - 1]
  {
    if !onCell then Ignored
    else if item == "" then Ignored
    else
      var colIndex := column - 1;
      if colIndex < 0 || colIndex >= |Columns| then Ignored
      else if Columns[colIndex] == "password" then
        match Find(rows, item)
        case None => Failed
        case Some(rec) => Copied(rec.password, CopyNotices[colIndex])
      else
        match ItemValues(tree, item)
        case None => Failed
        case Some(vs) => if colIndex < |vs| then Copied(vs[colIndex], CopyNotices[colIndex]) else Failed
  }

  /** While the view shows the table as the last refresh left it, a
      double-click on any cell of a stored row copies that field's stored
      plaintext value, the password included, and shows that column's
      notice; a click outside the five columns copies nothing. */
  lemma CopyGivesPlaintext(rows: seq<Row>, id: string, column: int)
    requires DistinctIds(rows) && "" !in Ids(rows) && id in Ids(rows)
    ensures 1 <= column <= |Columns| ==>
      CopyCell(View(rows), rows, true, id, column) ==
        Copied(Values(Find(rows, id).value)[column - 1], CopyNotices[column - 1])
    ensures column < 1 || column > |Columns| ==> CopyCell(View(rows), rows, true, id, column) == Ignored
  {
    var rec := Find(rows, id).value;
    if 1 <= column <= |Columns| && Columns[column - 1] != "password" {
      ItemValuesOfView(rows, id);
      assert ItemValues(View(rows), id) == Some(Displayed(rec));
      assert Displayed(rec)[column - 1] == Values(rec)[column - 1];
    }
  }
}
