/** The two query shapes the polling strategy hands to its query executor:
    a selection of named columns from a table, and an insertion of rows. */
module Queries {
  import opened ChatTypes

  datatype Query =
    | Select(targets: seq<string>, fromTable: string)
    | Insert(table: string, columns: seq<string>, values: seq<seq<Value>>)

  /** The record one inserted value list becomes in the target table: each
      column is paired with the value at the same position; a repeated
      column name keeps its last value. */
  function RowOf(columns: seq<string>, values: seq<Value>): (r: Row)
    ensures forall c :: c in r ==> c in columns
  {
    if |columns| == 0 || |values| == 0 then map[]
    else map[columns[0] := values[0]] + RowOf(columns[1..], values[1..])
  }

  /** The records an insertion adds to its table (none for a selection). */
  function InsertedRows(q: Query): (rows: seq<Row>)
    ensures q.Insert? ==> |rows| == |q.values|
    ensures q.Select? ==> rows == []
  {
    match q
    case Select(_, _) => []
    case Insert(_, columns, values) => seq(|values|, i requires 0 <= i < |values| => RowOf(columns, values[i]))
  }
}
