/** The component itself: it owns the table and replaces it on every edit.
    Each row is a mutable array, as in the source, where a cell edit copies
    only the outer array and writes into a row array that the previous state
    still holds. */
module Spreadsheet {
  import opened JsArray
  import opened Grid

  /** The cells a sequence of row arrays holds. */
  function Snapshot(rows: seq<array<string>>): (t: Table)
    reads rows
    ensures |t| == |rows|
    ensures forall i :: 0 <= i < |rows| ==> t[i] == rows[i][..]
  {
    seq(|rows|, i reads rows requires 0 <= i < |rows| => rows[i][..])
  }

  /** No row array sits at two positions. */
  predicate Distinct(rows: seq<array<string>>)
  {
    forall i, j :: 0 <= i < j < |rows| ==> rows[i] != rows[j]
  }

  /** Filtering the row arrays by position filters the table they hold the
      same way, and keeps them distinct. */
  lemma FilterRows(rows: seq<array<string>>, index: int)
    ensures Snapshot(FilterOutIndex(rows, index)) == FilterOutIndex(Snapshot(rows), index)
    ensures Distinct(rows) ==> Distinct(FilterOutIndex(rows, index))
  {
    FilterOutIndexRemovesAt(rows, index);
    FilterOutIndexRemovesAt(Snapshot(rows), index);
    if 0 <= index < |rows| {
      var kept := FilterOutIndex(rows, index);
      forall k | 0 <= k < |kept|
        ensures kept[k] == rows[if k < index then k else k + 1]
      {
        FilterOutIndexAt(rows, index, k);
      }
    }
  }

  class SpreadsheetConverter {
    /** `tableData`: the row arrays, header first. */
    var tableData: seq<array<string>>

    /** The table the rows hold now. */
    function Contents(): (t: Table)
      reads this, tableData
      ensures |t| == |tableData|
      ensures forall i :: 0 <= i < |tableData| ==> t[i] == tableData[i][..]
    {
      Snapshot(tableData)
    }

    /** The rows form a well-formed table, and no row array sits at two
        positions, so a cell write changes one row only. */
    predicate Valid()
      reads this, tableData
    {
      && WellFormed(Contents())
      && Distinct(tableData)
    }

    /** A new row array holding `cells`. */
    static method NewRow(cells: Row) returns (row: array<string>)
      ensures fresh(row) && row[..] == cells
    {
      row := new string[|cells|](j requires 0 <= j < |cells| => cells[j]);
    }

    /** `useState([...])`: the six named columns over one blank row. */
    constructor ()
      ensures Valid() && Contents() == Initial()
      ensures forall i :: 0 <= i < |tableData| ==> fresh(tableData[i])
    {
      var header := NewRow(Initial()[0]);
      var blank := NewRow(Initial()[1]);
      tableData := [header, blank];
    }

    /** `tableData.map(row => ...)`: one new row array per row, built by
        `f` from that row's cells. */
    method MapRows(f: Row -> Row) returns (rows: seq<array<string>>)
      ensures |rows| == |tableData|
      ensures forall i :: 0 <= i < |rows| ==> fresh(rows[i]) && rows[i][..] == f(tableData[i][..])
      ensures forall i, j :: 0 <= i < j < |rows| ==> rows[i] != rows[j]
    {
      rows := [];
      var i := 0;
      while i < |tableData|
        invariant 0 <= i <= |tableData|
        invariant |rows| == i
        invariant forall k :: 0 <= k < i ==> fresh(rows[k]) && rows[k][..] == f(tableData[k][..])
        invariant forall k, l :: 0 <= k < l < i ==> rows[k] != rows[l]
      {
        var row := NewRow(f(tableData[i][..]));
        rows := rows + [row];
        i := i + 1;
      }
    }

    /** addRow: the existing row arrays are kept and a fresh blank one is
        appended. */
    method AddRow()
      requires Valid()
      modifies this
      ensures Valid()
      ensures Contents() == Grid.AddRow(old(Contents()))
      ensures |tableData| == |old(tableData)| + 1
      ensures tableData[..|old(tableData)|] == old(tableData) && fresh(tableData[|old(tableData)|])
    {
      ghost var before := Contents();
      var blank := NewRow(Blank(tableData[0].Length));
      tableData := tableData + [blank];
      assert Contents() == before + [Blank(|before[0]|)];
    }

    /** addColumn: every row, header included, is replaced by a fresh array
        one cell longer. */
    method AddColumn()
      requires Valid()
      modifies this
      ensures Valid()
      ensures Contents() == Grid.AddColumn(old(Contents()))
      ensures |tableData| == |old(tableData)|
      ensures forall i :: 0 <= i < |tableData| ==> fresh(tableData[i])
    {
      ghost var before := Contents();
      var rows := MapRows(row => row + [""]);
      tableData := rows;
      assert Contents() == Grid.AddColumn(before);
    }

    /** removeRow: nothing happens with two rows or fewer; otherwise the row
        array at absolute position `rowIndex` is filtered out and the others
        are kept, in order. */
    method RemoveRow(rowIndex: int)
      requires Valid()
      modifies this
      ensures Valid()
      ensures Contents() == Grid.RemoveRow(old(Contents()), rowIndex)
      ensures tableData == if |old(tableData)| <= 2 then old(tableData) else FilterOutIndex(old(tableData), rowIndex)
    {
      if |tableData| <= 2 {
        return;
      }
      ghost var before := Contents();
      FilterRows(tableData, rowIndex);
      RemoveRowPreservesWellFormed(before, rowIndex);
      tableData := FilterOutIndex(tableData, rowIndex);
    }

    /** removeColumn: nothing happens with a single column; otherwise every
        row is replaced by a fresh array without the cell at `colIndex`. */
    method RemoveColumn(colIndex: int)
      requires Valid()
      modifies this
      ensures Valid()
      ensures Contents() == Grid.RemoveColumn(old(Contents()), colIndex)
      ensures |tableData| == |old(tableData)|
      ensures old(tableData[0].Length) <= 1 ==> tableData == old(tableData)
      ensures old(tableData[0].Length) > 1 ==> forall i :: 0 <= i < |tableData| ==> fresh(tableData[i])
    {
      if tableData[0].Length <= 1 {
        return;
      }
      ghost var before := Contents();
      var rows := MapRows(row => FilterOutIndex(row, colIndex));
      tableData := rows;
      RemoveColumnPreservesWellFormed(before, colIndex);
      assert Contents() == Grid.RemoveColumn(before, colIndex);
    }

    /** handleCellChange: the outer array is copied, then the cell is written
        into the row array itself, which the previous state shares. */
    method HandleCellChange(rowIndex: int, colIndex: int, value: string)
      requires Valid()
      requires 0 <= rowIndex < |tableData| && 0 <= colIndex < tableData[rowIndex].Length
      modifies this, tableData[rowIndex]
      ensures Valid()
      ensures Contents() == SetCell(old(Contents()), rowIndex, colIndex, value)
      ensures tableData == old(tableData)
      ensures tableData[rowIndex][..] == old(tableData[rowIndex][..])[colIndex := value]
    {
      ghost var before := Contents();
      var newData := tableData;
      newData[rowIndex][colIndex] := value;
      tableData := newData;
      assert Contents() == SetCell(before, rowIndex, colIndex, value);
    }
  }
}
