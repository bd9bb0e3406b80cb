/** Credential records as the password manager stores them, and the small
    pure rules applied to their text fields: the all-fields-filled check and
    the password mask. */
module Records {

  datatype Option<+T> = None | Some(value: T)

  /** The five text columns of a row of the `passwords` table, in column order. */
  datatype Record = Record(name: string, login: string, password: string, description: string, url: string)

  /** A stored row: the `id` primary key together with its record. */
  datatype Row = Row(id: string, rec: Record)

  /** Column names of the table and of the table view, in order. */
  const Columns: seq<string> := ["name", "login", "password", "description", "url"]

  /** The column values of a record, in column order. */
  function Values(rec: Record): (vs: seq<string>)
    ensures |vs| == |Columns|
  {
    [rec.name, rec.login, rec.password, rec.description, rec.url]
  }

  /** Python's `all(...)` over string values: no value is the empty string. */
  function AllFilled(values: seq<string>): (ok: bool)
    ensures ok <==> forall i :: 0 <= i < |values| ==> values[i] != ""
  {
    values == [] || (values[0] != "" && AllFilled(values[1..]))
  }

  /** `n` asterisks. */
  function Stars(n: nat): (s: string)
    ensures |s| == n
    ensures forall i :: 0 <= i < n ==> s[i] == '*'
  {
    if n == 0 then "" else Stars(n - 1) + "*"
  }

  /** The password as the table view shows it: one `*` per character, and
      the empty string for an empty password. */
  function Mask(password: string): (m: string)
    ensures |m| == |password|
    ensures forall i :: 0 <= i < |m| ==> m[i] == '*'
  {
    if password != "" then Stars(|password|) else ""
  }

  /** The mask reveals the length of a password and nothing else. */
  lemma MaskRevealsOnlyLength(p: string, q: string)
    ensures Mask(p) == Mask(q) <==> |p| == |q|
  {
  }
}
