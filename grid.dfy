/** The table behind the spreadsheet editor, as a value: row 0 is the header,
    every later row is a data row, every cell is a string. Each operation
    returns the table the component stores next (its `setTableData`). */
module Grid {
  import opened JsArray

  type Row = seq<string>
  type Table = seq<Row>

  /** The shape every reachable table has: a header and at least one data
      row, at least one column, and every row exactly as long as the header. */
  predicate WellFormed(t: Table)
  {
    && |t| >= 2
    && |t[0]| >= 1
    && forall i :: 0 <= i < |t| ==> |t[i]| == |t[0]|
  }

  /** The table the component starts with: six named columns over one blank
      data row. */
  function Initial(): (t: Table)
    ensures WellFormed(t)
    ensures |t| == 2 && |t[0]| == 6
    ensures forall j :: 0 <= j < 6 ==> t[1][j] == ""
  {
    [["ID", "Name", "Age", "Country", "Email", "Occupation"],
     ["", "", "", "", "", ""]]
  }

  /** `Array(n).fill('')`: a row of `n` empty cells. */
  function Blank(n: nat): (r: Row)
    ensures |r| == n
    ensures forall j :: 0 <= j < n ==> r[j] == ""
  {
    seq(n, _ => "")
  }

  /** addRow: a blank row as wide as the header goes after the last row.
      The header must exist, since its length is read. */
  function AddRow(t: Table): (r: Table)
    requires |t| >= 1
    ensures |r| == |t| + 1
    ensures forall i :: 0 <= i < |t| ==> r[i] == t[i]
    ensures |r[|t|]| == |t[0]|
    ensures forall j :: 0 <= j < |t[0]| ==> r[|t|][j] == ""
    ensures WellFormed(t) ==> WellFormed(r)
  {
    t + [Blank(|t[0]|)]
  }

  /** addColumn: every row, the header included, gets one more empty cell at
      its end. */
  function AddColumn(t: Table): (r: Table)
    ensures |r| == |t|
    ensures forall i :: 0 <= i < |t| ==> |r[i]| == |t[i]| + 1 && r[i][..|t[i]|] == t[i] && r[i][|t[i]|] == ""
    ensures WellFormed(t) ==> WellFormed(r) && |r[0]| == |t[0]| + 1
  {
    seq(|t|, i requires 0 <= i < |t| => t[i] + [""])
  }

  /** removeRow: with only a header and one data row the table stays as it is;
      otherwise every row whose absolute position is `rowIndex` is filtered
      out. Nothing here protects the header at position 0. */
  function RemoveRow(t: Table, rowIndex: int): (r: Table)
    ensures |r| == if |t| > 2 && 0 <= rowIndex < |t| then |t| - 1 else |t|
  {
    if |t| <= 2 then t else FilterOutIndex(t, rowIndex)
  }

  /** removeColumn: with a single column the table stays as it is; otherwise
      the cell at `colIndex` is filtered out of every row, header included. */
  function RemoveColumn(t: Table, colIndex: int): (r: Table)
    requires |t| >= 1
    ensures |r| == |t|
    ensures forall i :: 0 <= i < |t| ==>
              |r[i]| == if |t[0]| > 1 && 0 <= colIndex < |t[i]| then |t[i]| - 1 else |t[i]|
  {
    if |t[0]| <= 1 then t
    else seq(|t|, i requires 0 <= i < |t| => FilterOutIndex(t[i], colIndex))
  }

  /** handleCellChange: the cell at absolute row `r` (0 is the header) and
      column `c` takes the value `v`. The indices are those of a rendered
      cell, so they are in range. */
  function SetCell(t: Table, r: int, c: int, v: string): (u: Table)
    requires 0 <= r < |t| && 0 <= c < |t[r]|
    ensures |u| == |t|
    ensures forall i :: 0 <= i < |t| ==> |u[i]| == |t[i]|
    ensures u[r][c] == v
    ensures forall i, j :: 0 <= i < |t| && 0 <= j < |t[i]| && (i != r || j != c) ==> u[i][j] == t[i][j]
    ensures WellFormed(t) ==> WellFormed(u)
  {
    t[r := t[r][c := v]]
  }

  /** removeRow drops exactly the row at `rowIndex` when the table has more
      than two rows and `rowIndex` is a position in it, and changes nothing
      otherwise; the remaining rows keep their order. */
  lemma RemoveRowRemovesAt(t: Table, rowIndex: int)
    ensures RemoveRow(t, rowIndex)
         == if |t| > 2 && 0 <= rowIndex < |t| then t[..rowIndex] + t[rowIndex + 1..] else t
  {
    FilterOutIndexRemovesAt(t, rowIndex);
  }

  /** removeRow keeps the table well formed, whatever the index. */
  lemma RemoveRowPreservesWellFormed(t: Table, rowIndex: int)
    requires WellFormed(t)
    ensures WellFormed(RemoveRow(t, rowIndex))
    ensures |RemoveRow(t, rowIndex)| == if |t| > 2 && 0 <= rowIndex < |t| then |t| - 1 else |t|
  {
    RemoveRowRemovesAt(t, rowIndex);
    var r := RemoveRow(t, rowIndex);
    if |t| > 2 && 0 <= rowIndex < |t| {
      assert forall i :: 0 <= i < |r| ==> r[i] == if i < rowIndex then t[i] else t[i + 1];
    }
  }

  /** The header survives removeRow for every index except 0; index 0 on a
      table of more than two rows promotes the first data row to header. */
  lemma RemoveRowHeader(t: Table, rowIndex: int)
    requires |t| >= 1
    ensures |RemoveRow(t, rowIndex)| >= 1
    ensures rowIndex != 0 ==> RemoveRow(t, rowIndex)[0] == t[0]
    ensures rowIndex == 0 && |t| > 2 ==> RemoveRow(t, rowIndex)[0] == t[1]
  {
    RemoveRowRemovesAt(t, rowIndex);
  }

  /** removeColumn takes the cell at `colIndex` out of every row when the
      header has more than one column and the index is in range, and leaves
      every row as it is otherwise. */
  lemma RemoveColumnRemovesAt(t: Table, colIndex: int)
    requires |t| >= 1
    ensures |RemoveColumn(t, colIndex)| == |t|
    ensures forall i :: 0 <= i < |t| ==>
              RemoveColumn(t, colIndex)[i]
              == if |t[0]| > 1 && 0 <= colIndex < |t[i]| then t[i][..colIndex] + t[i][colIndex + 1..] else t[i]
  {
    forall i | 0 <= i < |t| {
      FilterOutIndexRemovesAt(t[i], colIndex);
    }
  }

  /** removeColumn keeps the table well formed and never removes the last
      column. */
  lemma RemoveColumnPreservesWellFormed(t: Table, colIndex: int)
    requires WellFormed(t)
    ensures WellFormed(RemoveColumn(t, colIndex))
    ensures |RemoveColumn(t, colIndex)[0]|
         == if |t[0]| > 1 && 0 <= colIndex < |t[0]| then |t[0]| - 1 else |t[0]|
  {
    RemoveColumnRemovesAt(t, colIndex);
  }

  /** removeColumn on a single-column table changes nothing. */
  lemma RemoveColumnLastColumnKept(t: Table, colIndex: int)
    requires |t| >= 1 && |t[0]| <= 1
    ensures RemoveColumn(t, colIndex) == t
  {
  }

  /** removeRow on the blank row that addRow appended gives back the table. */
  lemma RemoveRowUndoesAddRow(t: Table)
    requires WellFormed(t)
    ensures RemoveRow(AddRow(t), |t|) == t
  {
    var a := AddRow(t);
    RemoveRowRemovesAt(a, |t|);
    assert a[..|t|] == t;
  }

  /** removeColumn on the column that addColumn appended gives back the
      table. */
  lemma RemoveColumnUndoesAddColumn(t: Table)
    requires WellFormed(t)
    ensures RemoveColumn(AddColumn(t), |t[0]|) == t
  {
    var a := AddColumn(t);
    RemoveColumnRemovesAt(a, |t[0]|);
    forall i | 0 <= i < |t|
      ensures RemoveColumn(a, |t[0]|)[i] == t[i]
    {
      assert a[i][..|t[0]|] == t[i];
      assert a[i][|t[0]| + 1..] == [];
    }
  }

  /** Writing a cell's previous value back undoes handleCellChange. */
  lemma SetCellUndo(t: Table, r: int, c: int, v: string)
    requires 0 <= r < |t| && 0 <= c < |t[r]|
    ensures SetCell(SetCell(t, r, c, v), r, c, t[r][c]) == t
  {
    var u := SetCell(SetCell(t, r, c, v), r, c, t[r][c]);
    assert u[r] == t[r];
  }
}
