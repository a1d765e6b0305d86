/** What the component derives from its table on every render: whether the
    data rows are all blank, and the string that the copy button exports. */
module Serializer {
  import opened JsArray
  import opened Grid

  /** The one token placed between cells and between rows alike. */
  const Separator: string := "~~"

  /** `row.every(cell => cell === '')` */
  predicate IsBlankRow(row: Row)
    ensures IsBlankRow(row) <==> row == Blank(|row|)
  {
    forall j :: 0 <= j < |row| ==> row[j] == ""
  }

  /** `tableData.slice(1)`: the data rows; a table without rows has none. */
  function DataRows(t: Table): (d: Table)
    ensures |d| == if |t| == 0 then 0 else |t| - 1
    ensures forall k :: 0 <= k < |d| ==> d[k] == t[k + 1]
  {
    if |t| == 0 then [] else t[1..]
  }

  /** isDataEmpty: every data row is blank. */
  predicate IsDataEmpty(t: Table)
    ensures |t| <= 1 ==> IsDataEmpty(t)
  {
    var data := DataRows(t);
    forall k :: 0 <= k < |data| ==> IsBlankRow(data[k])
  }

  /** formatDataForCopy: each row joined by the separator, then the row
      strings joined by the same separator. */
  function FormatDataForCopy(t: Table): string
  {
    Join(seq(|t|, i requires 0 <= i < |t| => Join(t[i], Separator)), Separator)
  }

  /** The cells of the table in row-major order. */
  function Flatten(t: Table): seq<string>
  {
    if |t| == 0 then [] else t[0] + Flatten(t[1..])
  }

  /** No cell of the table contains the separator's character. */
  predicate NoTildeInCells(t: Table)
  {
    forall i, j :: 0 <= i < |t| && 0 <= j < |t[i]| ==> '~' !in t[i][j]
  }

  // ---------------------------------------------------------------------
  // isDataEmpty

  /** isDataEmpty holds exactly when every cell below the header is empty. */
  lemma IsDataEmptyIffBlankCells(t: Table)
    ensures IsDataEmpty(t) <==> forall i, j :: 1 <= i < |t| && 0 <= j < |t[i]| ==> t[i][j] == ""
  {
    if IsDataEmpty(t) {
      forall i, j | 1 <= i < |t| && 0 <= j < |t[i]| ensures t[i][j] == "" {
        assert IsBlankRow(DataRows(t)[i - 1]);
      }
    }
    if forall i, j :: 1 <= i < |t| && 0 <= j < |t[i]| ==> t[i][j] == "" {
      forall k | 0 <= k < |DataRows(t)| ensures IsBlankRow(DataRows(t)[k]) {
        assert DataRows(t)[k] == t[k + 1];
      }
    }
  }

  /** The header's contents never decide emptiness. */
  lemma IsDataEmptyIgnoresHeader(t: Table, header: Row)
    requires |t| >= 1
    ensures IsDataEmpty(t[0 := header]) == IsDataEmpty(t)
  {
    assert DataRows(t[0 := header]) == DataRows(t);
  }

  /** The table the component starts with is empty. */
  lemma InitialIsDataEmpty()
    ensures IsDataEmpty(Initial())
  {
    IsDataEmptyIffBlankCells(Initial());
  }

  /** Typing a non-empty value into a data cell makes the table non-empty. */
  lemma SetCellNonBlankIsNotEmpty(t: Table, r: int, c: int, v: string)
    requires 1 <= r < |t| && 0 <= c < |t[r]| && v != ""
    ensures !IsDataEmpty(SetCell(t, r, c, v))
  {
    IsDataEmptyIffBlankCells(SetCell(t, r, c, v));
  }

  /** Clearing that cell again gives back an empty table when the table was
      empty before the edit. */
  lemma SetCellClearedIsEmptyAgain(t: Table, r: int, c: int, v: string)
    requires IsDataEmpty(t)
    requires 1 <= r < |t| && 0 <= c < |t[r]|
    ensures IsDataEmpty(SetCell(SetCell(t, r, c, v), r, c, ""))
  {
    var u := SetCell(SetCell(t, r, c, v), r, c, "");
    IsDataEmptyIffBlankCells(t);
    IsDataEmptyIffBlankCells(u);
  }

  /** A header edit never changes emptiness. */
  lemma SetCellInHeaderKeepsEmptiness(t: Table, c: int, v: string)
    requires |t| >= 1 && 0 <= c < |t[0]|
    ensures IsDataEmpty(SetCell(t, 0, c, v)) == IsDataEmpty(t)
  {
    IsDataEmptyIgnoresHeader(t, t[0][c := v]);
  }

  /** addRow and addColumn only add empty cells, so they do not change
      emptiness. */
  lemma AddRowKeepsEmptiness(t: Table)
    requires |t| >= 1
    ensures IsDataEmpty(AddRow(t)) == IsDataEmpty(t)
  {
    IsDataEmptyIffBlankCells(t);
    IsDataEmptyIffBlankCells(AddRow(t));
  }

  lemma AddColumnKeepsEmptiness(t: Table)
    ensures IsDataEmpty(AddColumn(t)) == IsDataEmpty(t)
  {
    var a := AddColumn(t);
    IsDataEmptyIffBlankCells(t);
    IsDataEmptyIffBlankCells(a);
    if IsDataEmpty(a) {
      forall i, j | 1 <= i < |t| && 0 <= j < |t[i]| ensures t[i][j] == "" {
        assert t[i][j] == a[i][j];
      }
    }
  }

  /** Removing a row or a column from an empty table leaves it empty,
      whatever the index (even when row 0 goes and a blank data row becomes
      the header). */
  lemma RemoveRowKeepsEmpty(t: Table, rowIndex: int)
    requires IsDataEmpty(t)
    ensures IsDataEmpty(RemoveRow(t, rowIndex))
  {
    var r := RemoveRow(t, rowIndex);
    RemoveRowRemovesAt(t, rowIndex);
    IsDataEmptyIffBlankCells(t);
    IsDataEmptyIffBlankCells(r);
    if |t| > 2 && 0 <= rowIndex < |t| {
      forall i, j | 1 <= i < |r| && 0 <= j < |r[i]| ensures r[i][j] == "" {
        assert r[i] == if i < rowIndex then t[i] else t[i + 1];
      }
    }
  }

  lemma RemoveColumnKeepsEmpty(t: Table, colIndex: int)
    requires |t| >= 1 && IsDataEmpty(t)
    ensures IsDataEmpty(RemoveColumn(t, colIndex))
  {
    var r := RemoveColumn(t, colIndex);
    RemoveColumnRemovesAt(t, colIndex);
    IsDataEmptyIffBlankCells(t);
    IsDataEmptyIffBlankCells(r);
    forall i, j | 1 <= i < |r| && 0 <= j < |r[i]| ensures r[i][j] == "" {
      if |t[0]| > 1 && 0 <= colIndex < |t[i]| {
        assert r[i][j] == if j < colIndex then t[i][j] else t[i][j + 1];
      }
    }
  }

  // ---------------------------------------------------------------------
  // formatDataForCopy

  /** When no row is empty, joining rows and then the row strings is the same
      as joining all cells in row-major order: the export has no row
      boundary of its own. */
  lemma {:induction false} FormatIsRowMajorJoin(t: Table)
    requires forall i :: 0 <= i < |t| ==> |t[i]| > 0
    ensures FormatDataForCopy(t) == Join(Flatten(t), Separator)
  {
    if |t| > 0 {
      var rows := seq(|t|, i requires 0 <= i < |t| => Join(t[i], Separator));
      var rest := seq(|t| - 1, i requires 0 <= i < |t| - 1 => Join(t[1..][i], Separator));
      assert rows == [Join(t[0], Separator)] + rest;
      FormatIsRowMajorJoin(t[1..]);
      if |t| == 1 {
        assert Flatten(t) == t[0];
      } else {
        JoinAppend(t[0], Flatten(t[1..]), Separator);
      }
    }
  }

  /** A table of R rows of C cells each has R * C cells. */
  lemma {:induction false} FlattenLength(t: Table, width: nat)
    requires forall i :: 0 <= i < |t| ==> |t[i]| == width
    ensures |Flatten(t)| == |t| * width
  {
    if |t| > 0 {
      FlattenLength(t[1..], width);
      MulSucc(|t| - 1, width);
    }
  }

  /** Every cell of the flattened table is a cell of the table. */
  lemma {:induction false} FlattenCellsNoTilde(t: Table)
    requires NoTildeInCells(t)
    ensures forall k :: 0 <= k < |Flatten(t)| ==> '~' !in Flatten(t)[k]
  {
    if |t| > 0 {
      assert NoTildeInCells(t[1..]) by {
        forall i, j | 0 <= i < |t[1..]| && 0 <= j < |t[1..][i]| ensures '~' !in t[1..][i][j] {
          assert t[1..][i] == t[i + 1];
        }
      }
      FlattenCellsNoTilde(t[1..]);
      forall k | 0 <= k < |Flatten(t)| ensures '~' !in Flatten(t)[k] {
        if k >= |t[0]| {
          assert Flatten(t)[k] == Flatten(t[1..])[k - |t[0]|];
        }
      }
    }
  }

  /** An R-by-C table whose cells contain no '~' exports with exactly
      R * C - 1 separators, that is 2 * (R * C - 1) tildes. */
  lemma FormatSeparatorCount(t: Table)
    requires WellFormed(t) && NoTildeInCells(t)
    ensures multiset(FormatDataForCopy(t))['~'] == 2 * (|t| * |t[0]| - 1)
  {
    var cells := Flatten(t);
    FormatIsRowMajorJoin(t);
    FlattenLength(t, |t[0]|);
    FlattenCellsNoTilde(t);
    assert multiset(Separator)['~'] == 2;
    JoinCount(cells, Separator, '~');
    assert |cells| == |t| * |t[0]|;
  }

  /** The export of the initial table: the six header names, then the six
      blank cells, all separated by the same token (12 tildes after the last
      name). */
  lemma InitialFormat()
    ensures FormatDataForCopy(Initial()) == "ID~~Name~~Age~~Country~~Email~~Occupation~~~~~~~~~~~~"
  {
    InitialFormatRows();
    InitialHeaderJoin();
    InitialBlankRowJoin();
    assert "ID~~Name~~Age~~Country~~Email~~Occupation" + Separator + "~~~~~~~~~~"
        == "ID~~Name~~Age~~Country~~Email~~Occupation~~~~~~~~~~~~";
  }

  /** The initial export is the joined header, one separator, and the joined
      blank row. */
  lemma InitialFormatRows()
    ensures FormatDataForCopy(Initial()) == Join(Initial()[0], Separator) + Separator + Join(Initial()[1], Separator)
  {
    var t := Initial();
    var header, blank := Join(t[0], Separator), Join(t[1], Separator);
    var rows := seq(|t|, i requires 0 <= i < |t| => Join(t[i], Separator));
    assert rows == [header, blank];
    JoinCons(header, [blank], Separator);
  }

  lemma InitialHeaderJoin()
    ensures Join(Initial()[0], Separator) == "ID~~Name~~Age~~Country~~Email~~Occupation"
  {
    var first, last := ["ID", "Name", "Age"], ["Country", "Email", "Occupation"];
    assert Initial()[0] == first + last;
    JoinAppend(first, last, Separator);
    InitialHeaderHalves();
  }

  lemma InitialHeaderHalves()
    ensures Join(["ID", "Name", "Age"], Separator) == "ID~~Name~~Age"
    ensures Join(["Country", "Email", "Occupation"], Separator) == "Country~~Email~~Occupation"
  {
    JoinThree("ID", "Name", "Age");
    JoinThree("Country", "Email", "Occupation");
  }

  lemma InitialBlankRowJoin()
    ensures Join(Initial()[1], Separator) == "~~~~~~~~~~"
  {
    var half := ["", "", ""];
    assert Initial()[1] == half + half;
    JoinAppend(half, half, Separator);
    JoinThree("", "", "");
  }

  lemma JoinThree(a: string, b: string, c: string)
    ensures Join([a, b, c], Separator) == a + Separator + b + Separator + c
  {
    assert [a, b, c][1..] == [b, c];
    assert [b, c][1..] == [c];
    assert Join([b, c], Separator) == b + Separator + c;
    assert a + Separator + (b + Separator + c) == a + Separator + b + Separator + c;
  }

  /** A two-by-two table exports as its four cells in reading order. */
  lemma TwoByTwoFormat()
    ensures FormatDataForCopy([["A", "B"], ["1", "2"]]) == "A~~B~~1~~2"
  {
    var t := [["A", "B"], ["1", "2"]];
    FormatIsRowMajorJoin(t);
    var cells := ["A", "B", "1", "2"];
    assert Flatten(t) == cells by {
      assert Flatten(t[1..]) == t[1] + Flatten(t[2..]);
    }
    var j3 := Join(cells[3..], Separator);
    assert j3 == "2";
    var j2 := Join(cells[2..], Separator);
    assert j2 == "1" + Separator + j3 by { assert cells[2..][1..] == cells[3..]; }
    var j1 := Join(cells[1..], Separator);
    assert j1 == "B" + Separator + j2 by { assert cells[1..][1..] == cells[2..]; }
    assert Join(cells, Separator) == "A" + Separator + j1;
    assert "A" + Separator + ("B" + Separator + ("1" + Separator + "2")) == "A~~B~~1~~2";
  }

  // ---------------------------------------------------------------------
  // Reading an export back

  /** `s.split('~~')`: the pieces between leftmost, non-overlapping
      occurrences of the separator. */
  function Split(s: string): (pieces: seq<string>)
    ensures |pieces| >= 1
    decreases |s|
  {
    if |s| == 0 then [""]
    else if |s| >= 2 && s[..2] == Separator then [""] + Split(s[2..])
    else
      var rest := Split(s[1..]);
      [[s[0]] + rest[0]] + rest[1..]
  }

  /** Cuts a flat list of cells into rows of `width` cells. */
  function Chunk(cells: seq<string>, width: nat): Table
    requires width > 0
    decreases |cells|
  {
    if |cells| == 0 then []
    else if |cells| <= width then [cells]
    else [cells[..width]] + Chunk(cells[width..], width)
  }

  /** How a consumer that knows the column count rebuilds the table from an
      export. */
  function Decode(s: string, width: nat): Table
    requires width > 0
  {
    Chunk(Split(s), width)
  }

  /** A piece without '~' in front of a string only extends the first piece
      of that string. */
  lemma {:induction false} SplitPrefix(c: string, s: string)
    requires '~' !in c
    ensures Split(c + s) == [c + Split(s)[0]] + Split(s)[1..]
  {
    if |c| > 0 {
      assert (c + s)[1..] == c[1..] + s;
      assert (c + s)[0] == c[0];
      SplitPrefix(c[1..], s);
      assert [c[0]] + (c[1..] + Split(s)[0]) == c + Split(s)[0];
    } else {
      var pieces := Split(s);
      assert c + s == s;
      assert c + pieces[0] == pieces[0];
      assert [pieces[0]] + pieces[1..] == pieces;
    }
  }

  /** Splitting undoes joining when no part contains '~'. */
  lemma {:induction false} SplitJoin(parts: seq<string>)
    requires |parts| > 0
    requires forall k :: 0 <= k < |parts| ==> '~' !in parts[k]
    ensures Split(Join(parts, Separator)) == parts
  {
    SplitPrefix(parts[0], if |parts| == 1 then "" else Separator + Join(parts[1..], Separator));
    if |parts| == 1 {
      assert parts[0] + "" == parts[0];
    } else {
      var tail := Separator + Join(parts[1..], Separator);
      assert tail[..2] == Separator;
      assert tail[2..] == Join(parts[1..], Separator);
      SplitJoin(parts[1..]);
      assert Split(tail) == [""] + parts[1..];
      assert parts[0] + Separator + Join(parts[1..], Separator) == parts[0] + tail;
      assert parts[0] + "" == parts[0];
      assert [parts[0]] + parts[1..] == parts;
    }
  }

  /** Chunking the row-major cells by the row width gives back the rows. */
  lemma {:induction false} ChunkFlatten(t: Table, width: nat)
    requires width > 0
    requires forall i :: 0 <= i < |t| ==> |t[i]| == width
    ensures Chunk(Flatten(t), width) == t
  {
    if |t| > 0 {
      FlattenLength(t[1..], width);
      assert Flatten(t)[..width] == t[0];
      assert Flatten(t)[width..] == Flatten(t[1..]);
      ChunkFlatten(t[1..], width);
      if |t| == 1 {
        assert Flatten(t) == t[0];
      }
    }
  }

  /** An export can be read back, given the column count, whenever no cell
      contains '~'. */
  lemma DecodeFormat(t: Table)
    requires WellFormed(t) && NoTildeInCells(t)
    ensures Decode(FormatDataForCopy(t), |t[0]|) == t
  {
    FormatIsRowMajorJoin(t);
    FlattenLength(t, |t[0]|);
    FlattenCellsNoTilde(t);
    SplitJoin(Flatten(t));
    ChunkFlatten(t, |t[0]|);
  }

  /** Without that condition the export does not identify the table: two
      different well-formed tables, one with the separator inside a cell,
      export the same string. */
  lemma FormatAmbiguousWithSeparatorInCell()
    ensures var t1, t2 := [["x~~y"], ["z"]], [["x"], ["y~~z"]];
            WellFormed(t1) && WellFormed(t2) && t1 != t2
            && FormatDataForCopy(t1) == FormatDataForCopy(t2)
  {
    var t1, t2 := [["x~~y"], ["z"]], [["x"], ["y~~z"]];
    FormatIsRowMajorJoin(t1);
    FormatIsRowMajorJoin(t2);
    assert Flatten(t1) == t1[0] + t1[1] by {
      assert Flatten(t1[1..]) == t1[1] + Flatten(t1[2..]);
    }
    assert Flatten(t2) == t2[0] + t2[1] by {
      assert Flatten(t2[1..]) == t2[1] + Flatten(t2[2..]);
    }
    assert t1[0] != t2[0];
  }
}
