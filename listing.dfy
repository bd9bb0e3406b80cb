/** The table view: what `load_data` puts on screen for the rows of the
    `passwords` table. Each row becomes one item whose identifier is the
    row's id and whose five values are the record's columns with the
    password masked. */
module Listing {
  import opened Records
  import opened Table

  /** One item of the table view: its identifier and its displayed values. */
  datatype ViewItem = ViewItem(iid: string, values: seq<string>)

  /** The values shown for a record: every column as stored, except the
      password, which is masked. */
  function Displayed(rec: Record): (d: seq<string>)
    ensures |d| == |Columns|
    ensures forall c :: 0 <= c < |Columns| ==>
      d[c] == if Columns[c] == "password" then Mask(rec.password) else Values(rec)[c]
  {
    [rec.name, rec.login, Mask(rec.password), rec.description, rec.url]
  }

  /** The item shown for one row. */
  function Item(row: Row): ViewItem {
    ViewItem(row.id, Displayed(row.rec))
  }

  /** The items of the view after a refresh, in storage order. */
  function View(rows: seq<Row>): (v: seq<ViewItem>)
    ensures |v| == |rows|
    ensures forall i :: 0 <= i < |rows| ==> v[i] == Item(rows[i])
  {
    if rows == [] then [] else [Item(rows[0])] + View(rows[1..])
  }

  /** `item(iid, 'values')`: the values of the first item with identifier
      `iid`, or None when the view holds no such item. */
  function ItemValues(tree: seq<ViewItem>, iid: string): (r: Option<seq<string>>)
    ensures r.Some? <==> exists i :: 0 <= i < |tree| && tree[i].iid == iid
    ensures r.Some? ==> ViewItem(iid, r.value) in tree
  {
    if tree == [] then None
    else if tree[0].iid == iid then Some(tree[0].values)
    else
      var rest := ItemValues(tree[1..], iid);
      assert rest.None? ==> forall i :: 1 <= i < |tree| ==> tree[i].iid != iid by {
        if rest.None? {
          forall i | 1 <= i < |tree| ensures tree[i].iid != iid {
            assert tree[1..][i - 1] == tree[i];
          }
        }
      }
      rest
  }

  /** Listing shows every stored row exactly once, under its own id, and
      nothing else: item identifiers are exactly the stored ids, each
      appearing once. */
  lemma {:induction false} ListedOnce(rows: seq<Row>, id: string)
    requires DistinctIds(rows)
    ensures id in Ids(rows) ==>
      exists i :: 0 <= i < |rows| && View(rows)[i].iid == id &&
        forall j :: 0 <= j < |rows| && View(rows)[j].iid == id ==> j == i
    ensures id !in Ids(rows) ==> forall j :: 0 <= j < |rows| ==> View(rows)[j].iid != id
  {
    var v := View(rows);
    if id in Ids(rows) {
      var i :| 0 <= i < |rows| && rows[i].id == id;
      assert v[i].iid == id;
      forall j | 0 <= j < |rows| && v[j].iid == id ensures j == i {
        assert rows[j].id == id;
      }
    }
  }

  /** What the view shows under a stored id is that row's record with its
      password masked. */
  lemma {:induction false} ItemValuesOfView(rows: seq<Row>, id: string)
    ensures ItemValues(View(rows), id) ==
      if id in Ids(rows) then Some(Displayed(Find(rows, id).value)) else None
  {
    if rows != [] {
      assert View(rows)[1..] == View(rows[1..]);
      ItemValuesOfView(rows[1..], id);
      IdsPrepend(rows[0], rows[1..]);
      assert [rows[0]] + rows[1..] == rows;
    }
  }
}
