# Spreadsheet grid bookkeeping, in Dafny

This project models the state logic of `SpreadsheetConverter`, a React
component in which a user types a table, adds and removes rows and columns,
and copies the whole table as one `~~`-separated string. The component keeps
a table of strings whose row 0 is the header. Everything else it does is
rendering.

The model has four modules:

- `JsArray` (`jsarray.dfy`): the JavaScript array operations the component is
  built from. `FilterOutIndex` is `filter((_, index) => index !== i)`, and
  `Join` is `join(sep)`. Lemmas characterise both.
- `Grid` (`grid.dfy`): the table as a value (`seq<seq<string>>`). It holds the
  initial table and one function per structural operation and cell edit, each
  returning the table the component stores next. `WellFormed` is the shape
  invariant: at least two rows, at least one column, and every row as long as
  the header. The lemmas show that every operation keeps that invariant and
  pin down exactly what each operation changes. They also give inverses:
  removeRow undoes addRow, removeColumn undoes addColumn, and writing a
  cell's old value back undoes handleCellChange.
- `Serializer` (`serializer.dfy`): `isDataEmpty` and `formatDataForCopy`,
  with their characterisations. Emptiness ignores the header, and each
  operation affects emptiness as expected. The export is the row-major join
  of all cells. When no cell contains `~`, it has exactly R·C−1 separators,
  and a decoder that knows the column count reads it back. The export of
  the initial table is pinned down exactly. Two different tables export to
  the same string when a cell does contain the separator.
- `Spreadsheet` (`spreadsheet.dfy`): the component as a class. Its
  `tableData` field is a sequence of row arrays, so the cell edit is an
  in-place array write, as in the source. Each method is proved against the
  matching `Grid` function: `Contents() == Grid.Op(old(Contents()))`. Each
  method also keeps `Valid()`: the table is well formed, and no row array
  appears at two positions. The second part is what confines a cell write to
  one row.

Three behaviours of the code are worth stating outright:

- `removeRow` takes an absolute row index; the rendered delete button passes
  `rowIndex + 1` (src/components/SpreadsheetConverter.jsx:127). Nothing
  inside `removeRow` protects the header: on a table of more than two rows,
  index 0 removes the header and the first data row takes its place
  (`Grid.RemoveRowHeader`). The model puts no precondition on the index,
  because the code has none.
- `handleCellChange` copies only the outer array
  (src/components/SpreadsheetConverter.jsx:32) and then writes into the row
  array it shares with the previous state, so that state's row changes too.
  `Spreadsheet.SpreadsheetConverter.HandleCellChange` writes into the row
  array and keeps the same row references.
- The export of the initial table ends in exactly 12 tildes after
  `Occupation`: one separator between the rows and five inside the blank
  row. `Serializer.InitialFormat` proves the exact string.

## Model

| member | source | states |
|---|---|---|
| `JsArray.FilterOutIndex` | src/components/SpreadsheetConverter.jsx:21 | the filter shortens the array by one exactly when `i` is a position in it; `JsArray.FilterOutIndexRemovesAt` says which element goes |
| `JsArray.Join` | src/components/SpreadsheetConverter.jsx:42 | no contract of its own; `JsArray.JoinAppend`, `JsArray.JoinCount` and `Serializer.SplitJoin` characterise it |
| `JsArray.FilterOutIndexRemovesAt` | src/components/SpreadsheetConverter.jsx:21 | filtering on `index !== i` removes exactly the element at `i` when `i` is a position, and nothing otherwise |
| `JsArray.JoinAppend` | src/components/SpreadsheetConverter.jsx:42 | joining two non-empty arrays one after the other puts exactly one separator between their joins |
| `JsArray.JoinCount` | src/components/SpreadsheetConverter.jsx:42 | when no part contains a character, its count in the joined string is (parts − 1) × its count in the separator |
| `Grid.Initial` | src/components/SpreadsheetConverter.jsx:4-7 | the initial table is well formed: 2 rows of 6 columns, with a blank data row |
| `Grid.AddRow` | src/components/SpreadsheetConverter.jsx:10-12 | one more row; earlier rows unchanged; the new last row is all `''` and as wide as the header; well-formedness kept |
| `Grid.AddColumn` | src/components/SpreadsheetConverter.jsx:14-17 | same row count; every row, header included, keeps its prefix and gains one trailing `''`; well-formedness kept and the width grows by 1 |
| `Grid.Blank` | src/components/SpreadsheetConverter.jsx:11 | `Array(n).fill('')` has `n` cells, each `''` |
| `Grid.RemoveRow` | src/components/SpreadsheetConverter.jsx:19-23 | the row count drops by one exactly when the table has more than two rows and the index is a position in it; `Grid.RemoveRowRemovesAt` says which row goes |
| `Grid.RemoveColumn` | src/components/SpreadsheetConverter.jsx:25-29 | the row count is unchanged, and each row loses one cell exactly when the header has more than one column and the index is a position in that row; `Grid.RemoveColumnRemovesAt` says which cell goes |
| `Grid.SetCell` | src/components/SpreadsheetConverter.jsx:31-35 | cell (r, c) becomes `v`; dimensions and every other cell unchanged; well-formedness kept |
| `Grid.RemoveRowRemovesAt` | src/components/SpreadsheetConverter.jsx:19-23 | with 2 or fewer rows nothing changes; otherwise an in-range index removes exactly that row, keeping the others in order, and an out-of-range index changes nothing |
| `Grid.RemoveRowPreservesWellFormed` | src/components/SpreadsheetConverter.jsx:19-23 | removeRow keeps the table well formed, and the row count drops by one exactly when a row is removed |
| `Grid.RemoveRowHeader` | src/components/SpreadsheetConverter.jsx:21 | the header survives every index except 0; index 0 on more than two rows makes the first data row the header |
| `Grid.RemoveColumnRemovesAt` | src/components/SpreadsheetConverter.jsx:25-29 | with more than one column and an in-range index, that cell leaves every row, header included; otherwise every row is unchanged |
| `Grid.RemoveColumnPreservesWellFormed` | src/components/SpreadsheetConverter.jsx:25-29 | removeColumn keeps all rows equally long and never drops the last column; the width drops by one exactly when a column is removed |
| `Grid.RemoveColumnLastColumnKept` | src/components/SpreadsheetConverter.jsx:26 | a single-column table is left unchanged |
| `Grid.RemoveRowUndoesAddRow` | src/components/SpreadsheetConverter.jsx:10-23 | removing the row that addRow appended gives back the original table |
| `Grid.RemoveColumnUndoesAddColumn` | src/components/SpreadsheetConverter.jsx:14-29 | removing the column that addColumn appended gives back the original table |
| `Grid.SetCellUndo` | src/components/SpreadsheetConverter.jsx:31-35 | writing a cell's previous value back restores the table |
| `Serializer.IsBlankRow` | src/components/SpreadsheetConverter.jsx:38 | a row is blank exactly when it equals `Array(n).fill('')` of its own length |
| `Serializer.DataRows` | src/components/SpreadsheetConverter.jsx:38 | `slice(1)` keeps every row after the header, in order, and is empty for an empty table |
| `Serializer.IsDataEmpty` | src/components/SpreadsheetConverter.jsx:37-39 | a table with no data rows is empty; `Serializer.IsDataEmptyIffBlankCells` gives both directions for every table |
| `Serializer.FormatDataForCopy` | src/components/SpreadsheetConverter.jsx:41-44 | no contract of its own; `Serializer.FormatIsRowMajorJoin`, `Serializer.FormatSeparatorCount` and `Serializer.DecodeFormat` characterise it |
| `Serializer.IsDataEmptyIffBlankCells` | src/components/SpreadsheetConverter.jsx:37-39 | isDataEmpty holds iff every cell of rows 1.. is `''` (both directions) |
| `Serializer.IsDataEmptyIgnoresHeader` | src/components/SpreadsheetConverter.jsx:38 | replacing the header never changes isDataEmpty |
| `Serializer.InitialIsDataEmpty` | src/components/SpreadsheetConverter.jsx:4-7 | the initial table is empty |
| `Serializer.SetCellNonBlankIsNotEmpty` | src/components/SpreadsheetConverter.jsx:31-39 | writing a non-empty value into a data cell makes isDataEmpty false |
| `Serializer.SetCellClearedIsEmptyAgain` | src/components/SpreadsheetConverter.jsx:31-39 | on an empty table, writing a value into a data cell and clearing it again leaves isDataEmpty true |
| `Serializer.SetCellInHeaderKeepsEmptiness` | src/components/SpreadsheetConverter.jsx:31-39 | a header edit never changes isDataEmpty |
| `Serializer.AddRowKeepsEmptiness` | src/components/SpreadsheetConverter.jsx:10-12 | addRow does not change isDataEmpty |
| `Serializer.AddColumnKeepsEmptiness` | src/components/SpreadsheetConverter.jsx:14-17 | addColumn does not change isDataEmpty |
| `Serializer.RemoveRowKeepsEmpty` | src/components/SpreadsheetConverter.jsx:19-23 | removeRow on an empty table, at any index, leaves it empty |
| `Serializer.RemoveColumnKeepsEmpty` | src/components/SpreadsheetConverter.jsx:25-29 | removeColumn on an empty table leaves it empty |
| `Serializer.FormatIsRowMajorJoin` | src/components/SpreadsheetConverter.jsx:41-44 | when no row is empty, the export is all cells in row-major order joined by `~~` |
| `Serializer.FormatSeparatorCount` | src/components/SpreadsheetConverter.jsx:42 | an R×C well-formed table with no `~` in any cell exports with exactly 2·(R·C − 1) tildes |
| `Serializer.InitialFormat` | src/components/SpreadsheetConverter.jsx:41-44 | the initial table exports as `ID~~Name~~Age~~Country~~Email~~Occupation` followed by 12 tildes |
| `Serializer.TwoByTwoFormat` | src/components/SpreadsheetConverter.jsx:41-44 | `[["A","B"],["1","2"]]` exports as `A~~B~~1~~2` |
| `Serializer.SplitJoin` | src/components/SpreadsheetConverter.jsx:42 | splitting on `~~` recovers the joined cells when no cell contains `~` |
| `Serializer.DecodeFormat` | src/components/SpreadsheetConverter.jsx:42 | a well-formed table with no `~` in any cell is recovered from its export and its column count |
| `Serializer.FormatAmbiguousWithSeparatorInCell` | src/components/SpreadsheetConverter.jsx:42 | two different well-formed tables, one with `~~` inside a cell, have the same export |
| `Spreadsheet.SpreadsheetConverter.constructor` | src/components/SpreadsheetConverter.jsx:4-7 | the component starts valid, holding the initial table in fresh row arrays |
| `Spreadsheet.SpreadsheetConverter.NewRow` | src/components/SpreadsheetConverter.jsx:11 | each array literal built by the component is a fresh array holding the given cells |
| `Spreadsheet.SpreadsheetConverter.MapRows` | src/components/SpreadsheetConverter.jsx:15 | `map` over the rows yields one fresh, distinct array per row, holding the given function of that row's cells |
| `Spreadsheet.SpreadsheetConverter.AddRow` | src/components/SpreadsheetConverter.jsx:10-12 | keeps `Valid()`; the new contents are `Grid.AddRow` of the old; old row arrays are kept and a fresh one is appended |
| `Spreadsheet.SpreadsheetConverter.AddColumn` | src/components/SpreadsheetConverter.jsx:14-17 | keeps `Valid()`; the new contents are `Grid.AddColumn` of the old; every row array is fresh |
| `Spreadsheet.SpreadsheetConverter.RemoveRow` | src/components/SpreadsheetConverter.jsx:19-23 | keeps `Valid()`; the new contents are `Grid.RemoveRow` of the old; the row arrays are the old ones filtered by index |
| `Spreadsheet.SpreadsheetConverter.RemoveColumn` | src/components/SpreadsheetConverter.jsx:25-29 | keeps `Valid()`; the new contents are `Grid.RemoveColumn` of the old; with a single column the row arrays are untouched, otherwise every row array is fresh |
| `Spreadsheet.SpreadsheetConverter.HandleCellChange` | src/components/SpreadsheetConverter.jsx:31-35 | keeps `Valid()`; the new contents are `Grid.SetCell` of the old; the same row arrays are kept and the edited row is changed in place |

## Left out

- Rendering (src/components/SpreadsheetConverter.jsx:57-187): the JSX, the styling, the placeholders and the switch between preview and empty message. This is presentation only. The model keeps from it only the index each handler receives (`rowIndex + 1` for data rows, 0 for the header).
- `handleCopy` (src/components/SpreadsheetConverter.jsx:46-55): the asynchronous clipboard write, the `copySuccess` flag with its 2-second timer reset, and the `console.error` call. These are browser I/O and timers. The string it would write is `Serializer.FormatDataForCopy`.
- React's `useState`/`setTableData` mechanics (re-rendering, batching). The state is a single field that each method replaces.
- `isDataEmpty` and `formatDataForCopy` are closures over the component's state. Here they are functions of the table, `Serializer.IsDataEmpty(c.Contents())` and `Serializer.FormatDataForCopy(c.Contents())`, and not members of the class.
- Grid.SetCell: requires in-range indices. In JavaScript, an out-of-range row index throws; a column index at or past the row's length would grow that row past the header, and a negative column index would set a property that is not an array element, leaving the row's length and its `join` as they were. The rendered inputs only ever pass indices of existing cells.
- Grid.AddRow and Grid.RemoveColumn: require a header row, because the source reads `tableData[0].length`, which throws on an empty table. Every reachable table has one.
- Indices are mathematical integers. A non-integer or non-numeric JavaScript index matches no position in the filters, which is the same as an out-of-range index.
