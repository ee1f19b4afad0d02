/** Cells of a Google Visualization API table, as the page script reads them
    through `table.rows[i].c[j].v` after the response has been parsed. */
module Cells {

  datatype Option<+T> = None | Some(value: T)

  /** A scalar cell payload as JavaScript sees it after JSON parsing.
      Numbers are modelled as integers. */
  datatype Value = Str(s: string) | Num(n: int) | Bool(b: bool)

  /** A cell object `{v: ...}`; its `v` may itself be JSON null. */
  datatype Cell = Cell(v: Option<Value>)

  /** The `c` array of one table row; a missing cell is JSON null. */
  type Row = seq<Option<Cell>>

  /** JavaScript truthiness of a value that may be null: null, '', 0 and false are falsy. */
  predicate Truthy(x: Option<Value>)
  {
    match x
    case None => false
    case Some(Str(s)) => s != ""
    case Some(Num(n)) => n != 0
    case Some(Bool(b)) => b
  }

  /** `getCellVal(index)`: the cell's `v`, or null when the cell is null or
      lies past the end of the row (reading past the end gives undefined). */
  function CellVal(row: Row, index: nat): (r: Option<Value>)
    ensures index >= |row| ==> r == None
    ensures index < |row| && row[index].None? ==> r == None
    ensures index < |row| && row[index].Some? ==> r == row[index].value.v
  {
    if index < |row| then
      match row[index]
      case None => None
      case Some(cell) => cell.v
    else
      None
  }

  /** A short row reads exactly like the same row padded with null cells. */
  lemma ShortRowReadsAsPadded(row: Row, pad: nat, index: nat)
    ensures CellVal(row, index) == CellVal(row + seq(pad, _ => None), index)
  {
  }
}
