/**
  A worksheet as the import and export services see it: rows of cell
  texts, in sheet order. A cell past the end of its row is empty.
*/
module Workbook {
  import opened Seqs

  type Row = seq<string>
  type Sheet = seq<Row>

  /** IXLRow.Cell(column).GetString(), with 1-based column numbers. */
  function Cell(row: Row, column: nat): string
  {
    if 1 <= column <= |row| then row[column - 1] else ""
  }

  /** A row counts as used when some cell of it holds text. */
  predicate RowUsed(row: Row)
  {
    exists i :: 0 <= i < |row| && row[i] != ""
  }

  /** IXLWorksheet.RowsUsed(): the used rows, in order. */
  function RowsUsed(sheet: Sheet): Sheet
  {
    Filter(sheet, RowUsed)
  }

  /** RowsUsed().Skip(1): the used rows after the first, which is the header. */
  function DataRows(sheet: Sheet): Sheet
  {
    var used := RowsUsed(sheet);
    if used == [] then [] else used[1..]
  }
}
