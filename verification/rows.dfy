/** `dict_factory`: turning a result row into the dictionary the handlers
    serialise, one entry per column name of the cursor's description. */
module Rows {
  import opened Tasks

  /** A column value as the driver returns it. */
  datatype SqlValue = Integer(i: int) | Text(s: string) | Timestamp(t: int)

  /** The columns of `SELECT * FROM tasks`, in table order. */
  const Columns: seq<string> :=
    ["id", "responsavel", "cliente", "descricao", "data_entrega", "status", "created_at", "updated_at"]

  /** A stored task as a result row, its values in the order of `Columns`. */
  function RowValues(t: Task): (row: seq<SqlValue>)
    ensures |row| == |Columns|
  {
    [Integer(t.id), Text(t.responsavel), Text(t.cliente), Text(t.descricao),
     Text(t.dataEntrega), Text(t.status), Timestamp(t.createdAt), Timestamp(t.updatedAt)]
  }

  /** The last position at which `k` occurs in `names`. */
  function LastIndex(names: seq<string>, k: string): (i: nat)
    requires k in names
    ensures i < |names| && names[i] == k
    ensures forall j | i < j < |names| :: names[j] != k
  {
    var n := |names| - 1;
    if names[n] == k then n
    else
      assert k in names[..n] by {
        var j :| 0 <= j < |names| && names[j] == k;
        assert j < n && names[..n][j] == k;
      }
      LastIndex(names[..n], k)
  }

  /** The dictionary built from a row: one entry per column name, holding the
      value at the name's last position. */
  function RowDict<V>(names: seq<string>, row: seq<V>): (d: map<string, V>)
    requires |names| <= |row|
    ensures forall k :: k in d <==> k in names
  {
    map k | k in names :: row[LastIndex(names, k)]
  }

  /** A name that does not recur later in the description maps to the value
      at its own position. */
  lemma RowDictAt<V>(names: seq<string>, row: seq<V>, i: nat)
    requires |names| <= |row| && i < |names|
    requires forall j | i < j < |names| :: names[j] != names[i]
    ensures RowDict(names, row)[names[i]] == row[i]
  {
    var r := LastIndex(names, names[i]);
  }

  /** Adding one more column to the description adds its entry, overwriting
      any earlier entry of the same name. */
  lemma RowDictAppend<V>(names: seq<string>, x: string, row: seq<V>)
    requires |names| < |row|
    ensures RowDict(names + [x], row) == RowDict(names, row)[x := row[|names|]]
  {
    var p := names + [x];
    assert p[..|names|] == names;
    forall k | k in names && k != x
      ensures LastIndex(p, k) == LastIndex(names, k)
    {
    }
  }

  /** The loop of dict_factory: one entry per column of the description, each
      later position overwriting an earlier one of the same name. */
  method DictFactory<V>(description: seq<string>, row: seq<V>) returns (d: map<string, V>)
    requires |description| <= |row|
    ensures d == RowDict(description, row)
  {
    d := map[];
    for idx := 0 to |description|
      invariant d == RowDict(description[..idx], row)
    {
      assert description[..idx + 1] == description[..idx] + [description[idx]];
      RowDictAppend(description[..idx], description[idx], row);
      d := d[description[idx] := row[idx]];
    }
    assert description[..|description|] == description;
  }

  /** The values a dictionary holds for the given names, in their order. */
  function Lookup<V>(d: map<string, V>, names: seq<string>): (values: seq<V>)
    requires forall k | k in names :: k in d
    ensures |values| == |names|
  {
    seq(|names|, i requires 0 <= i < |names| => d[names[i]])
  }

  /** A result row read back into a task; None when a value has the wrong kind. */
  function TaskOfRow(row: seq<SqlValue>): (r: Option<Task>)
  {
    if && |row| == |Columns|
       && row[0].Integer? && row[1].Text? && row[2].Text? && row[3].Text?
       && row[4].Text? && row[5].Text? && row[6].Timestamp? && row[7].Timestamp?
    then Some(Task(row[0].i, row[1].s, row[2].s, row[3].s, row[4].s, row[5].s, row[6].t, row[7].t))
    else None
  }

  /** Reading a serialised task back, as a client of the JSON API does; None
      when a column is missing or holds a value of the wrong kind. */
  function TaskOf(d: map<string, SqlValue>): (r: Option<Task>)
  {
    if forall k | k in Columns :: k in d then TaskOfRow(Lookup(d, Columns)) else None
  }

  /** When no name repeats, reading every column of the dictionary back in
      description order gives the row itself. */
  lemma RowDictReadBack<V>(names: seq<string>, row: seq<V>)
    requires |names| == |row|
    requires forall i, j | 0 <= i < j < |names| :: names[i] != names[j]
    ensures Lookup(RowDict(names, row), names) == row
  {
    var d := RowDict(names, row);
    forall i | 0 <= i < |names| ensures d[names[i]] == row[i] {
      RowDictAt(names, row, i);
    }
  }

  /** Every column of a stored task reaches the response verbatim: the
      dictionary dict_factory builds from the row read back decodes to the
      task itself. */
  lemma RowDictRoundTrip(t: Task)
    ensures TaskOf(RowDict(Columns, RowValues(t))) == Some(t)
  {
    ColumnsDistinct();
    RowDictReadBack(Columns, RowValues(t));
  }

  /** No column name occurs twice in the table. */
  lemma ColumnsDistinct()
    ensures forall i, j | 0 <= i < j < |Columns| :: Columns[i] != Columns[j]
  {
  }
}
