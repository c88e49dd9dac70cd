/**
 * The part of Qt's `QTableWidget` that `load_passwords` drives: a grid of
 * cell texts with a fixed number of columns. A cell with no item reads as
 * the empty text. `insertRow` outside the rows does nothing. Qt's `setItem`
 * addresses cells by the flat index `row * columnCount + column` and ignores
 * only an index past the last cell. Here an out-of-range column is ignored
 * outright, which agrees with Qt for the only such write the window makes:
 * column 4 of the last row.
 */
module TableWidgets {

  class TableWidget {
    /** `setColumnCount(n)`, fixed once the window is built. */
    const columnCount: nat
    /** The cell texts, row by row. */
    var cells: seq<seq<string>>

    ghost predicate Valid()
      reads this
    {
      forall r :: 0 <= r < |cells| ==> |cells[r]| == columnCount
    }

    /** A row of empty cells. */
    function EmptyRow(): (row: seq<string>)
      ensures |row| == columnCount
    {
      seq(columnCount, _ => "")
    }

    constructor (columnCount: nat)
      ensures Valid()
      ensures this.columnCount == columnCount && cells == []
    {
      this.columnCount := columnCount;
      cells := [];
    }

    /** `setRowCount(0)`: drops every row. */
    method ClearRows()
      requires Valid()
      modifies this
      ensures Valid()
      ensures cells == []
    {
      cells := [];
    }

    /** `insertRow(row)`: an empty row at that position; nothing when it is out of range. */
    method InsertRow(row: int)
      requires Valid()
      modifies this
      ensures Valid()
      ensures 0 <= row <= |old(cells)| ==> cells == old(cells)[..row] + [EmptyRow()] + old(cells)[row..]
      ensures !(0 <= row <= |old(cells)|) ==> cells == old(cells)
    {
      if 0 <= row <= |cells| {
        cells := cells[..row] + [EmptyRow()] + cells[row..];
      }
    }

    /**
     * `setItem(row, column, QTableWidgetItem(text))`: nothing when the cell is
     * out of range (for a column past the end on the last row, as in Qt).
     */
    method SetItem(row: int, column: int, text: string)
      requires Valid()
      modifies this
      ensures Valid()
      ensures 0 <= row < |old(cells)| && 0 <= column < columnCount ==>
        cells == old(cells)[row := old(cells)[row][column := text]]
      ensures !(0 <= row < |old(cells)| && 0 <= column < columnCount) ==> cells == old(cells)
    {
      if 0 <= row < |cells| && 0 <= column < columnCount {
        cells := cells[row := cells[row][column := text]];
      }
    }
  }
}
