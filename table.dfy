/** The `passwords` table as a sequence of rows in storage order, and the
    effect of each SQL statement the password manager issues against it.
    `id` is the primary key: `DistinctIds` is the constraint it imposes. */
module Table {
  import opened Records

  /** The primary keys present in `rows`. */
  function Ids(rows: seq<Row>): (ids: set<string>)
  {
    set i | 0 <= i < |rows| :: rows[i].id
  }

  /** The primary-key constraint: no two rows share an id. */
  ghost predicate DistinctIds(rows: seq<Row>) {
    forall i, j :: 0 <= i < j < |rows| ==> rows[i].id != rows[j].id
  }

  /** `SELECT ... WHERE id = ?` followed by `fetchone()`: the record of the
      first row stored under `id`, or None when there is none. */
  function Find(rows: seq<Row>, id: string): (r: Option<Record>)
    ensures r.Some? <==> id in Ids(rows)
    ensures r.Some? ==>
      exists i :: (0 <= i < |rows| && rows[i] == Row(id, r.value) &&
                   forall j :: 0 <= j < i ==> rows[j].id != id)
  {
    if rows == [] then None
    else if rows[0].id == id then Some(rows[0].rec)
    else Find(rows[1..], id)
  }

  /** `INSERT` of a row under the primary-key constraint: refused (None) when
      `id` is already a key, otherwise the row is stored after all others. */
  function Insert(rows: seq<Row>, id: string, rec: Record): (r: Option<seq<Row>>)
    ensures r.None? <==> id in Ids(rows)
  {
    if id in Ids(rows) then None else Some(rows + [Row(id, rec)])
  }

  /** `UPDATE ... SET <all five columns> WHERE id = ?`: every row stored under
      `id` gets the new record in its place; every other row is unchanged. */
  function Replace(rows: seq<Row>, id: string, rec: Record): (r: seq<Row>)
    ensures |r| == |rows|
    ensures forall i :: 0 <= i < |rows| ==> r[i] == (if rows[i].id == id then Row(id, rec) else rows[i])
  {
    if rows == [] then []
    else [if rows[0].id == id then Row(id, rec) else rows[0]] + Replace(rows[1..], id, rec)
  }

  /** `DELETE ... WHERE id = ?`: the rows stored under another id, in their order. */
  function Remove(rows: seq<Row>, id: string): (r: seq<Row>)
    ensures Ids(r) == Ids(rows) - {id}
    ensures |r| <= |rows|
  {
    if rows == [] then []
    else
      var rest := Remove(rows[1..], id);
      if rows[0].id == id then rest
      else
        IdsPrepend(rows[0], rest);
        [rows[0]] + rest
  }

  lemma IdsPrepend(row: Row, rows: seq<Row>)
    ensures Ids([row] + rows) == {row.id} + Ids(rows)
  {
    var s := [row] + rows;
    forall k | k in Ids(s) ensures k == row.id || k in Ids(rows) {
      var i :| 0 <= i < |s| && s[i].id == k;
      if i > 0 { assert s[i] == rows[i - 1]; }
    }
    forall k | k in Ids(rows) ensures k in Ids(s) {
      var i :| 0 <= i < |rows| && rows[i].id == k;
      assert s[i + 1] == rows[i];
    }
    assert s[0] == row;
  }

  lemma IdsAppend(rows: seq<Row>, row: Row)
    ensures Ids(rows + [row]) == Ids(rows) + {row.id}
  {
    var s := rows + [row];
    forall k | k in Ids(s) ensures k == row.id || k in Ids(rows) {
      var i :| 0 <= i < |s| && s[i].id == k;
      if i < |rows| { assert s[i] == rows[i]; }
    }
    forall k | k in Ids(rows) ensures k in Ids(s) {
      var i :| 0 <= i < |rows| && rows[i].id == k;
      assert s[i] == rows[i];
    }
    assert s[|rows|] == row;
  }

  lemma DistinctTail(rows: seq<Row>)
    requires rows != [] && DistinctIds(rows)
    ensures DistinctIds(rows[1..]) && rows[0].id !in Ids(rows[1..])
  {
  }

  /** Under the primary-key constraint the row at position `i` is the one
      found by its id. */
  lemma FindAt(rows: seq<Row>, i: nat)
    requires DistinctIds(rows) && i < |rows|
    ensures Find(rows, rows[i].id) == Some(rows[i].rec)
  {
  }

  /** Appending a row changes only what is found under that row's id, and
      only when the id was not stored before. */
  lemma {:induction false} FindAppend(rows: seq<Row>, row: Row, k: string)
    ensures Find(rows + [row], k) ==
      if k in Ids(rows) then Find(rows, k) else if k == row.id then Some(row.rec) else None
  {
    if rows != [] {
      assert (rows + [row])[1..] == rows[1..] + [row];
      FindAppend(rows[1..], row, k);
    }
  }

  /** A successful insert adds exactly one key, keeps the constraint, stores
      the new record under the new id and leaves every other lookup alone;
      an insert under an existing key changes nothing. */
  lemma InsertEffect(rows: seq<Row>, id: string, rec: Record)
    requires DistinctIds(rows)
    ensures id in Ids(rows) ==> Insert(rows, id, rec) == None
    ensures id !in Ids(rows) ==>
      && Insert(rows, id, rec).Some?
      && var r := Insert(rows, id, rec).value;
      && |r| == |rows| + 1
      && r[..|rows|] == rows
      && Ids(r) == Ids(rows) + {id}
      && DistinctIds(r)
      && (forall k :: Find(r, k) == if k == id then Some(rec) else Find(rows, k))
  {
    if id !in Ids(rows) {
      var r := rows + [Row(id, rec)];
      assert r[..|rows|] == rows;
      IdsAppend(rows, Row(id, rec));
      forall k ensures Find(r, k) == if k == id then Some(rec) else Find(rows, k) {
        FindAppend(rows, Row(id, rec), k);
      }
    }
  }

  /** After `UPDATE`, the id holds the new record if it was stored, and every
      other id holds what it held before. */
  lemma FindAfterReplace(rows: seq<Row>, id: string, rec: Record, k: string)
    ensures Find(Replace(rows, id, rec), k) ==
      if k == id && id in Ids(rows) then Some(rec) else Find(rows, k)
  {
  }

  /** `UPDATE` keeps every key, and hence the constraint; on a missing id it
      affects no row. */
  lemma ReplaceKeepsIds(rows: seq<Row>, id: string, rec: Record)
    ensures Ids(Replace(rows, id, rec)) == Ids(rows)
    ensures DistinctIds(rows) ==> DistinctIds(Replace(rows, id, rec))
    ensures id !in Ids(rows) ==> Replace(rows, id, rec) == rows
  {
  }

  /** Deleting an id that is not stored changes nothing. */
  lemma {:induction false} RemoveAbsent(rows: seq<Row>, id: string)
    requires id !in Ids(rows)
    ensures Remove(rows, id) == rows
  {
    if rows != [] {
      RemoveAbsent(rows[1..], id);
    }
  }

  /** Under the primary-key constraint, deleting the id of the row at
      position `i` removes exactly that row and keeps the others in order. */
  lemma {:induction false} RemoveAt(rows: seq<Row>, i: nat)
    requires DistinctIds(rows) && i < |rows|
    ensures Remove(rows, rows[i].id) == rows[..i] + rows[i + 1..]
  {
    DistinctTail(rows);
    var id := rows[i].id;
    if i == 0 {
      RemoveAbsent(rows[1..], id);
      assert rows[..0] + rows[1..] == rows[1..];
    } else {
      assert rows[0].id != id;
      assert rows[1..][i - 1] == rows[i];
      RemoveAt(rows[1..], i - 1);
      calc {
        Remove(rows, id);
        [rows[0]] + Remove(rows[1..], id);
        [rows[0]] + (rows[1..][..i - 1] + rows[1..][i..]);
        { assert rows[1..][..i - 1] == rows[1..i] && rows[1..][i..] == rows[i + 1..]; }
        [rows[0]] + (rows[1..i] + rows[i + 1..]);
        { assert rows[..i] == [rows[0]] + rows[1..i]; }
        rows[..i] + rows[i + 1..];
      }
    }
  }

  /** Deleting keeps the primary-key constraint. */
  lemma RemoveKeepsDistinct(rows: seq<Row>, id: string)
    requires DistinctIds(rows)
    ensures DistinctIds(Remove(rows, id))
  {
    if id in Ids(rows) {
      var i :| 0 <= i < |rows| && rows[i].id == id;
      RemoveAt(rows, i);
      var r := rows[..i] + rows[i + 1..];
      forall a, b | 0 <= a < b < |r| ensures r[a].id != r[b].id {
        var a' := if a < i then a else a + 1;
        var b' := if b < i then b else b + 1;
        assert r[a] == rows[a'] && r[b] == rows[b'];
      }
    } else {
      RemoveAbsent(rows, id);
    }
  }

  /** After `DELETE`, nothing is found under the id and every other id holds
      what it held before. */
  lemma {:induction false} FindAfterRemove(rows: seq<Row>, id: string, k: string)
    ensures Find(Remove(rows, id), k) == if k == id then None else Find(rows, k)
  {
    if rows != [] {
      FindAfterRemove(rows[1..], id, k);
      if rows[0].id != id {
        assert ([rows[0]] + Remove(rows[1..], id))[1..] == Remove(rows[1..], id);
      }
    }
  }
}
