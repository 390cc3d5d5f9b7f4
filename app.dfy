// The spreadsheet's top-level state: the dimensions, the cell text, the
// column filter and its result, and the open context menu. Each handler is
// one atomic update of that state. The grid widget it renders keeps its own
// state (focus, sort arrows) and hands edited or sorted rows back, which the
// sheet stores as its data.
module App {
  import opened GridData
  import ExcelGrid

  const DEFAULT_ROWS: nat := 10
  const DEFAULT_COLS: nat := 8

  // ---------------------------------------------------------------------------
  // Sizes

  /** A fresh grid: `rows` rows of `cols` empty cells. */
  function CreateEmptyData(rows: nat, cols: nat): (g: Grid)
    ensures Rectangular(g, rows, cols)
    ensures forall i, j :: 0 <= i < rows && 0 <= j < cols ==> g[i][j] == ""
  {
    seq(rows, _ => EmptyRow(cols))
  }

  /** The count a size field asks for: `parsed` is what `parseInt` made of
      the field (None when it is not a number); zero and anything below one
      become one. */
  function ParseCount(parsed: Option<int>): (n: nat)
    ensures n >= 1
    ensures n == if parsed.Some? && parsed.value > 1 then parsed.value else 1
  {
    var v := match parsed
      case None => 1
      case Some(k) => if k == 0 then 1 else k;
    if 1 >= v then 1 else v
  }

  /** The grid after the row count changes to `newRows`: existing rows are
      kept (cut to `cols` cells), missing ones are added empty. */
  function ResizeRows(prev: Grid, newRows: nat, cols: nat): Grid {
    seq(newRows, i requires 0 <= i < newRows =>
      if i < |prev| then prev[i][..Min(cols, |prev[i]|)] else EmptyRow(cols))
  }

  /** The grid after the column count changes to `newCols`: every row is cut
      or padded with empty cells. */
  function ResizeCols(prev: Grid, newCols: nat): Grid {
    seq(|prev|, i requires 0 <= i < |prev| =>
      seq(newCols, j requires 0 <= j < newCols => if j < |prev[i]| then prev[i][j] else ""))
  }

  lemma ResizeRowsShape(prev: Grid, rows: nat, cols: nat, newRows: nat)
    requires Rectangular(prev, rows, cols)
    ensures var g := ResizeRows(prev, newRows, cols);
      && Rectangular(g, newRows, cols)
      && (forall i :: 0 <= i < Min(rows, newRows) ==> g[i] == prev[i])
      && (forall i :: rows <= i < newRows ==> g[i] == EmptyRow(cols))
  {
    var g := ResizeRows(prev, newRows, cols);
    forall i | 0 <= i < Min(rows, newRows)
      ensures g[i] == prev[i]
    {
      assert prev[i][..cols] == prev[i];
    }
  }

  lemma ResizeColsShape(prev: Grid, rows: nat, cols: nat, newCols: nat)
    requires Rectangular(prev, rows, cols)
    ensures var g := ResizeCols(prev, newCols);
      && Rectangular(g, rows, newCols)
      && (forall i, j :: 0 <= i < rows && 0 <= j < Min(cols, newCols) ==> g[i][j] == prev[i][j])
      && (forall i, j :: 0 <= i < rows && cols <= j < newCols ==> g[i][j] == "")
  {
  }

  /** Adding rows and taking them away again restores the grid. */
  lemma ResizeRowsBack(g: Grid, rows: nat, cols: nat, more: nat)
    requires Rectangular(g, rows, cols)
    ensures ResizeRows(ResizeRows(g, rows + more, cols), rows, cols) == g
  {
    ResizeRowsShape(g, rows, cols, rows + more);
    ResizeRowsShape(ResizeRows(g, rows + more, cols), rows + more, cols, rows);
  }

  /** Adding columns and taking them away again restores the grid. */
  lemma ResizeColsBack(g: Grid, rows: nat, cols: nat, more: nat)
    requires Rectangular(g, rows, cols)
    ensures ResizeCols(ResizeCols(g, cols + more), cols) == g
  {
    ResizeColsShape(g, rows, cols, cols + more);
    var h := ResizeCols(ResizeCols(g, cols + more), cols);
    ResizeColsShape(ResizeCols(g, cols + more), rows, cols + more, cols);
    forall i | 0 <= i < rows
      ensures h[i] == g[i]
    {
    }
  }

  // ---------------------------------------------------------------------------
  // Inserting and deleting rows and columns

  function InsertRowInto(g: Grid, idx: nat, cols: nat): Grid {
    InsertAt(g, idx, EmptyRow(cols))
  }

  function InsertColInto(g: Grid, idx: nat): Grid {
    seq(|g|, i requires 0 <= i < |g| => InsertAt(g[i], idx, ""))
  }

  function DeleteRowFrom(g: Grid, idx: nat): Grid {
    RemoveAt(g, idx)
  }

  function DeleteColFrom(g: Grid, idx: nat): Grid {
    seq(|g|, i requires 0 <= i < |g| => RemoveAt(g[i], idx))
  }

  /** A new row of empty cells lands at `idx` (at the end if `idx` is past
      it); the rows from there on move down by one. */
  lemma InsertRowShape(g: Grid, rows: nat, cols: nat, idx: nat)
    requires Rectangular(g, rows, cols)
    ensures var r := InsertRowInto(g, idx, cols);
      var at := Min(idx, rows);
      && Rectangular(r, rows + 1, cols)
      && (forall i :: 0 <= i < at ==> r[i] == g[i])
      && r[at] == EmptyRow(cols)
      && (forall i :: at <= i < rows ==> r[i + 1] == g[i])
  {
    var r := InsertRowInto(g, idx, cols);
    var at := Min(idx, rows);
    forall i | 0 <= i < |r|
      ensures |r[i]| == cols
    {
      if i > at {
        assert r[(i - 1) + 1] == g[i - 1];
      }
    }
  }

  /** An empty cell lands at `idx` in every row; the cells from there on move
      right by one. */
  lemma InsertColShape(g: Grid, rows: nat, cols: nat, idx: nat)
    requires Rectangular(g, rows, cols)
    ensures var r := InsertColInto(g, idx);
      var at := Min(idx, cols);
      && Rectangular(r, rows, cols + 1)
      && (forall i, j :: 0 <= i < rows && 0 <= j < at ==> r[i][j] == g[i][j])
      && (forall i :: 0 <= i < rows ==> r[i][at] == "")
      && (forall i, j :: 0 <= i < rows && at <= j < cols ==> r[i][j + 1] == g[i][j])
  {
  }

  /** Exactly the row at `idx` goes; the rows after it move up by one. */
  lemma DeleteRowShape(g: Grid, rows: nat, cols: nat, idx: nat)
    requires Rectangular(g, rows, cols) && idx < rows
    ensures var r := DeleteRowFrom(g, idx);
      && Rectangular(r, rows - 1, cols)
      && (forall i :: 0 <= i < idx ==> r[i] == g[i])
      && (forall i :: idx <= i < rows - 1 ==> r[i] == g[i + 1])
  {
  }

  /** Exactly the cell at `idx` goes from every row; the cells after it move
      left by one. */
  lemma DeleteColShape(g: Grid, rows: nat, cols: nat, idx: nat)
    requires Rectangular(g, rows, cols) && idx < cols
    ensures var r := DeleteColFrom(g, idx);
      && Rectangular(r, rows, cols - 1)
      && (forall i, j :: 0 <= i < rows && 0 <= j < idx ==> r[i][j] == g[i][j])
      && (forall i, j :: 0 <= i < rows && idx <= j < cols - 1 ==> r[i][j] == g[i][j + 1])
  {
  }

  /** Deleting the row just inserted restores the grid. */
  lemma DeleteInsertedRow(g: Grid, idx: nat, cols: nat)
    requires idx <= |g|
    ensures DeleteRowFrom(InsertRowInto(g, idx, cols), idx) == g
  {
    RemoveInserted(g, idx, EmptyRow(cols));
  }

  /** Deleting the column just inserted restores the grid. */
  lemma DeleteInsertedCol(g: Grid, idx: nat)
    requires forall i :: 0 <= i < |g| ==> idx <= |g[i]|
    ensures DeleteColFrom(InsertColInto(g, idx), idx) == g
  {
    var r := DeleteColFrom(InsertColInto(g, idx), idx);
    forall i | 0 <= i < |g|
      ensures r[i] == g[i]
    {
      RemoveInserted(g[i], idx, "");
    }
  }

  // ---------------------------------------------------------------------------
  // The column filter

  /** Lower case, for the letters A to Z. */
  function Lower(c: char): char {
    if 'A' <= c <= 'Z' then (c as int + 32) as char else c
  }

  function LowerStr(s: string): string {
    seq(|s|, i requires 0 <= i < |s| => Lower(s[i]))
  }

  /** `needle` occurs in `hay` starting at position `i`. */
  predicate OccursAt(hay: string, needle: string, i: int) {
    0 <= i && i + |needle| <= |hay| && hay[i..i + |needle|] == needle
  }

  /** `String.prototype.includes`. */
  predicate Includes(hay: string, needle: string)
    decreases |hay|
  {
    needle <= hay || (hay != [] && Includes(hay[1..], needle))
  }

  lemma {:induction false} IncludesIff(hay: string, needle: string)
    ensures Includes(hay, needle) <==> exists i :: OccursAt(hay, needle, i)
    decreases |hay|
  {
    if needle <= hay {
      assert OccursAt(hay, needle, 0);
    } else if hay != [] {
      IncludesIff(hay[1..], needle);
      if i :| OccursAt(hay[1..], needle, i) {
        assert hay[1..][i..i + |needle|] == hay[i + 1..i + 1 + |needle|];
        assert OccursAt(hay, needle, i + 1);
      }
      if i :| OccursAt(hay, needle, i) && i > 0 {
        assert hay[1..][i - 1..i - 1 + |needle|] == hay[i..i + |needle|];
        assert OccursAt(hay[1..], needle, i - 1);
      }
    }
  }

  /** `row[col] || ''`: a missing cell reads as the empty text. */
  function CellText(row: Row, col: nat): string {
    if col < |row| then row[col] else ""
  }

  /** The filter's test: the row's cell in column `col` contains `needle`,
      ignoring case. */
  predicate RowMatches(row: Row, col: nat, needle: string) {
    Includes(LowerStr(CellText(row, col)), LowerStr(needle))
  }

  function FilterRows(data: Grid, col: nat, needle: string): Grid {
    Filter(data, row => RowMatches(row, col, needle))
  }

  /** The filter keeps, in their order, exactly the rows whose cell contains
      the needle somewhere, ignoring case, and every copy of each such row. */
  lemma FilterRowsSpec(data: Grid, col: nat, needle: string)
    ensures IsSubsequence(FilterRows(data, col, needle), data)
    ensures |FilterRows(data, col, needle)| <= |data|
    ensures forall row :: row in FilterRows(data, col, needle) <==>
      row in data && exists i :: OccursAt(LowerStr(CellText(row, col)), LowerStr(needle), i)
    ensures forall row ::
              multiset(FilterRows(data, col, needle))[row] ==
              (if exists i :: OccursAt(LowerStr(CellText(row, col)), LowerStr(needle), i)
               then multiset(data)[row] else 0)
  {
    var keep := row => RowMatches(row, col, needle);
    FilterIsSubsequence(data, keep);
    FilterLength(data, keep);
    forall row
      ensures row in FilterRows(data, col, needle) <==>
        row in data && exists i :: OccursAt(LowerStr(CellText(row, col)), LowerStr(needle), i)
    {
      FilterMembers(data, keep, row);
      IncludesIff(LowerStr(CellText(row, col)), LowerStr(needle));
    }
    forall row
      ensures multiset(FilterRows(data, col, needle))[row] ==
        (if exists i :: OccursAt(LowerStr(CellText(row, col)), LowerStr(needle), i)
         then multiset(data)[row] else 0)
    {
      FilterMultiplicity(data, keep, row);
      IncludesIff(LowerStr(CellText(row, col)), LowerStr(needle));
    }
  }

  /** An empty needle keeps every row. */
  lemma FilterEmptyNeedle(data: Grid, col: nat)
    ensures FilterRows(data, col, "") == data
  {
    FilterAll(data, row => RowMatches(row, col, ""));
  }

  // ---------------------------------------------------------------------------
  // The context menu

  /** What was right-clicked: a row header, a column header or a cell. */
  datatype MenuRequest = RowMenu(rowIdx: nat) | ColMenu(colIdx: nat) | CellMenu(rowIdx: nat, colIdx: nat)

  datatype MenuAction =
    | InsertRowAction(idx: nat)
    | InsertColAction(idx: nat)
    | DeleteRowAction(idx: nat)
    | DeleteColAction(idx: nat)

  /** The menu's buttons, in order: add above/below and delete for a row, add
      left/right and delete for a column, the four additions for a cell. */
  function MenuActions(request: MenuRequest): seq<MenuAction> {
    match request
    case RowMenu(r) => [InsertRowAction(r), InsertRowAction(r + 1), DeleteRowAction(r)]
    case ColMenu(c) => [InsertColAction(c), InsertColAction(c + 1), DeleteColAction(c)]
    case CellMenu(r, c) => [InsertRowAction(r), InsertRowAction(r + 1), InsertColAction(c), InsertColAction(c + 1)]
  }

  predicate RequestInBounds(request: MenuRequest, rows: nat, cols: nat) {
    match request
    case RowMenu(r) => r < rows
    case ColMenu(c) => c < cols
    case CellMenu(r, c) => r < rows && c < cols
  }

  /** Inserts go at most one past the end; deletes name an existing entry. */
  predicate ActionFits(action: MenuAction, rows: nat, cols: nat) {
    match action
    case InsertRowAction(i) => i <= rows
    case InsertColAction(i) => i <= cols
    case DeleteRowAction(i) => i < rows
    case DeleteColAction(i) => i < cols
  }

  /** Every button of a menu opened on a cell of the grid fits the grid, and
      a cell's menu offers no deletion. */
  lemma MenuActionsFit(request: MenuRequest, rows: nat, cols: nat)
    requires RequestInBounds(request, rows, cols)
    ensures forall a :: a in MenuActions(request) ==> ActionFits(a, rows, cols)
    ensures request.CellMenu? ==>
      forall a :: a in MenuActions(request) ==> !a.DeleteRowAction? && !a.DeleteColAction?
  {
  }

  // ---------------------------------------------------------------------------
  // The sheet

  class Sheet {
    var rows: nat
    var cols: nat
    var data: Grid
    var filterCol: nat
    var filterValue: string
    var filteredData: Option<Grid>
    var contextMenu: Option<MenuRequest>
    /** The grid widget the sheet renders, with its own focus and sort state. */
    const grid: ExcelGrid.GridWidget

    /** At least one row and one column, and `data` has exactly that shape. */
    ghost predicate Valid()
      reads this
    {
      rows >= 1 && cols >= 1 && Rectangular(data, rows, cols)
    }

    /** The rows the widget shows: the filter's result while there is one. */
    function View(): Grid
      reads this
    {
      if filteredData.Some? then filteredData.value else data
    }

    /** The row count the widget is told. */
    function ViewRows(): int
      reads this
    {
      if filteredData.Some? then |filteredData.value| else rows
    }

    constructor()
      ensures Valid()
      ensures rows == DEFAULT_ROWS && cols == DEFAULT_COLS
      ensures data == CreateEmptyData(DEFAULT_ROWS, DEFAULT_COLS)
      ensures filterCol == 0 && filterValue == "" && filteredData == None && contextMenu == None
      ensures fresh(grid)
      ensures grid.focus == ExcelGrid.Focus(0, 0) && grid.sortConfig == ExcelGrid.Unsorted
    {
      rows := DEFAULT_ROWS;
      cols := DEFAULT_COLS;
      data := CreateEmptyData(DEFAULT_ROWS, DEFAULT_COLS);
      filterCol := 0;
      filterValue := "";
      filteredData := None;
      contextMenu := None;
      grid := new ExcelGrid.GridWidget();
    }

    /** The row-count field changed. */
    method HandleRowsChange(parsed: Option<int>)
      modifies this
      ensures rows == ParseCount(parsed)
      ensures data == ResizeRows(old(data), rows, cols)
      ensures filteredData == None
      ensures cols == old(cols) && filterCol == old(filterCol) && filterValue == old(filterValue)
      ensures contextMenu == old(contextMenu)
      ensures old(Valid()) ==> Valid()
    {
      var newRows := ParseCount(parsed);
      if Valid() {
        ResizeRowsShape(data, rows, cols, newRows);
      }
      rows := newRows;
      data := ResizeRows(data, newRows, cols);
      filteredData := None;
    }

    /** The column-count field changed. */
    method HandleColsChange(parsed: Option<int>)
      modifies this
      ensures cols == ParseCount(parsed)
      ensures data == ResizeCols(old(data), cols)
      ensures filteredData == None
      ensures rows == old(rows) && filterCol == old(filterCol) && filterValue == old(filterValue)
      ensures contextMenu == old(contextMenu)
      ensures old(Valid()) ==> Valid()
    {
      var newCols := ParseCount(parsed);
      if Valid() {
        ResizeColsShape(data, rows, cols, newCols);
      }
      cols := newCols;
      data := ResizeCols(data, newCols);
      filteredData := None;
    }

    /** A column was picked in the filter's column selector. */
    method SetFilterCol(col: nat)
      modifies this`filterCol
      ensures filterCol == col
    {
      filterCol := col;
    }

    /** The filter text field changed. */
    method SetFilterValue(value: string)
      modifies this`filterValue
      ensures filterValue == value
    {
      filterValue := value;
    }

    /** "Apply Filter": the matching rows become the view; the data stays. */
    method HandleApplyFilter()
      modifies this`filteredData
      ensures filteredData == Some(FilterRows(data, filterCol, filterValue))
      ensures IsSubsequence(View(), data)
    {
      FilterRowsSpec(data, filterCol, filterValue);
      filteredData := Some(FilterRows(data, filterCol, filterValue));
    }

    /** "Clear Filter": no view, and an empty filter text. */
    method HandleClearFilter()
      modifies this`filteredData, this`filterValue
      ensures filteredData == None && filterValue == ""
      ensures View() == data
    {
      filteredData := None;
      filterValue := "";
    }

    /** A right click on a row header, column header or cell opens the menu. */
    method ShowContextMenu(request: MenuRequest)
      modifies this`contextMenu
      ensures contextMenu == Some(request)
    {
      contextMenu := Some(request);
    }

    /** A click anywhere else closes the menu. */
    method CloseContextMenu()
      modifies this`contextMenu
      ensures contextMenu == None
    {
      contextMenu := None;
    }

    method InsertRow(idx: nat)
      modifies this`data, this`rows, this`contextMenu
      ensures data == InsertRowInto(old(data), idx, cols) && rows == old(rows) + 1
      ensures contextMenu == None
      ensures old(Valid()) ==> Valid()
    {
      if Valid() {
        InsertRowShape(data, rows, cols, idx);
      }
      data := InsertRowInto(data, idx, cols);
      rows := rows + 1;
      contextMenu := None;
    }

    method InsertCol(idx: nat)
      modifies this`data, this`cols, this`contextMenu
      ensures data == InsertColInto(old(data), idx) && cols == old(cols) + 1
      ensures contextMenu == None
      ensures old(Valid()) ==> Valid()
    {
      if Valid() {
        InsertColShape(data, rows, cols, idx);
      }
      data := InsertColInto(data, idx);
      cols := cols + 1;
      contextMenu := None;
    }

    /** Deletes a row, unless only one is left: then nothing at all changes
        (the menu stays open too). */
    method DeleteRow(idx: nat)
      modifies this`data, this`rows, this`contextMenu
      ensures old(rows) <= 1 ==> data == old(data) && rows == old(rows) && contextMenu == old(contextMenu)
      ensures old(rows) > 1 ==> data == DeleteRowFrom(old(data), idx) && rows == old(rows) - 1 && contextMenu == None
      ensures old(Valid()) && idx < old(rows) ==> Valid()
    {
      if rows <= 1 {
        return;
      }
      if Valid() && idx < rows {
        DeleteRowShape(data, rows, cols, idx);
      }
      data := DeleteRowFrom(data, idx);
      rows := rows - 1;
      contextMenu := None;
    }

    /** Deletes a column, unless only one is left: then nothing at all changes
        (the menu stays open too). */
    method DeleteCol(idx: nat)
      modifies this`data, this`cols, this`contextMenu
      ensures old(cols) <= 1 ==> data == old(data) && cols == old(cols) && contextMenu == old(contextMenu)
      ensures old(cols) > 1 ==> data == DeleteColFrom(old(data), idx) && cols == old(cols) - 1 && contextMenu == None
      ensures old(Valid()) && idx < old(cols) ==> Valid()
    {
      if cols <= 1 {
        return;
      }
      if Valid() && idx < cols {
        DeleteColShape(data, rows, cols, idx);
      }
      data := DeleteColFrom(data, idx);
      cols := cols - 1;
      contextMenu := None;
    }

    /** A menu button was clicked. */
    method ChooseMenuAction(action: MenuAction)
      modifies this`data, this`rows, this`cols, this`contextMenu
      ensures action.InsertRowAction? ==>
        && data == InsertRowInto(old(data), action.idx, old(cols))
        && rows == old(rows) + 1 && cols == old(cols) && contextMenu == None
      ensures action.InsertColAction? ==>
        && data == InsertColInto(old(data), action.idx)
        && cols == old(cols) + 1 && rows == old(rows) && contextMenu == None
      ensures action.DeleteRowAction? && old(rows) <= 1 ==>
        data == old(data) && rows == old(rows) && cols == old(cols) && contextMenu == old(contextMenu)
      ensures action.DeleteRowAction? && old(rows) > 1 ==>
        && data == DeleteRowFrom(old(data), action.idx)
        && rows == old(rows) - 1 && cols == old(cols) && contextMenu == None
      ensures action.DeleteColAction? && old(cols) <= 1 ==>
        data == old(data) && rows == old(rows) && cols == old(cols) && contextMenu == old(contextMenu)
      ensures action.DeleteColAction? && old(cols) > 1 ==>
        && data == DeleteColFrom(old(data), action.idx)
        && cols == old(cols) - 1 && rows == old(rows) && contextMenu == None
      ensures old(Valid()) && ActionFits(action, old(rows), old(cols)) ==> Valid()
    {
      match action
      case InsertRowAction(i) => InsertRow(i);
      case InsertColAction(i) => InsertCol(i);
      case DeleteRowAction(i) => DeleteRow(i);
      case DeleteColAction(i) => DeleteCol(i);
    }

    /** Typing in a cell of the widget. The widget edits the rows it shows and
        the sheet stores the result as its data: while a filter is on, that
        replaces the data with the edited filtered rows and leaves `rows` and
        the shown view as they were. */
    method EditCell(row: int, col: int, value: string)
      modifies this`data
      ensures data == ExcelGrid.EditCell(old(View()), row, col, value)
      ensures old(Valid()) && old(filteredData).None? && 0 <= row < rows && 0 <= col < cols ==> data[row][col] == value
      ensures old(Valid()) && old(filteredData).None? ==> Valid()
    {
      if Valid() && filteredData.None? {
        ExcelGrid.EditCellKeepsShape(data, rows, cols, row, col, value);
      }
      data := ExcelGrid.EditCell(View(), row, col, value);
    }

    /** A sort arrow on column `colIdx`. As with an edit, the sorted rows
        replace the data, so while a filter is on only the filtered rows remain. */
    method SortColumn(colIdx: nat, direction: ExcelGrid.Direction, le: (string, string) -> bool)
      modifies this`data, grid`sortConfig
      ensures data == ExcelGrid.SortRows(old(View()), ExcelGrid.SortOrder(colIdx, direction, le))
      ensures grid.sortConfig == ExcelGrid.SortConfig(colIdx, direction)
      ensures old(Valid()) && old(filteredData).None? ==> Valid()
    {
      if Valid() && filteredData.None? {
        ExcelGrid.SortRowsKeepsShape(data, rows, cols, ExcelGrid.SortOrder(colIdx, direction, le));
      }
      var sorted := grid.HandleSort(View(), colIdx, direction, le);
      data := sorted;
    }

    /** A key pressed in the widget's cell (`row`, `col`). */
    method KeyDown(key: ExcelGrid.Key, row: int, col: int)
      requires ExcelGrid.InBounds(ExcelGrid.Focus(row, col), ViewRows(), cols)
      modifies grid`focus
      ensures grid.focus == ExcelGrid.FocusTarget(key, ExcelGrid.Focus(row, col), ViewRows(), cols)
      ensures ExcelGrid.InBounds(grid.focus, ViewRows(), cols)
    {
      grid.HandleKeyDown(key, row, col, ViewRows(), cols);
    }
  }
}
