# Excel grid: a verified model of the grid-editing core

This project models the state and the editing logic of a browser spreadsheet
widget written in React. It has two components.

The **sheet** (`src/App.jsx`) owns the following state:

- the row and column counts;
- the cell text, as rows of strings;
- a column filter (a column, a needle, and the filtered rows or none);
- the open context menu.

Its handlers do the following:

- resize the grid, with a floor of one row and one column;
- insert and delete rows and columns (a delete refuses to remove the last one);
- apply and clear the filter;
- store whatever grid the widget hands back.

The **grid widget** (`src/components/ExcelGrid.jsx`) keeps the focused cell and
the last sort. It does three things:

- edits one cell;
- moves focus on Tab, Shift+Tab and the arrow keys;
- sorts the rows by a column, with blank cells always last.

Both files carry the same column-label routine, which writes a column index in
bijective base 26 (`0 → A`, `25 → Z`, `26 → AA`). It is modelled once.

Modules, one per file:

- `ColumnLabel` (`column_label.dfy`): the label as a recursive function. Its
  inverse `Decode` is proved to undo it in both directions, so labels are a
  bijection between indices `≥ 0` and non-empty words over `A`–`Z`. The loop
  `GetColumnLabel` is proved to compute the function.
- `GridData` (`grid_data.dfy`): rows and grids; `splice` with JavaScript's
  clamping for a non-negative start; `filter`, with subsequence, membership and multiplicity
  lemmas.
- `ExcelGrid` (`excel_grid.dfy`): the widget.
  - The cell edit is a pure function.
  - `FocusTarget` is a reference definition of navigation. Tab steps through
    the row-major index `row * columns + col`; the arrows clamp. `NextFocus`
    keeps the source's branches and is proved equal to it.
  - The sort's spec is a stable insertion sort, `SortRows`. `SortInPlace` is
    an in-place insertion sort on an array, proved equal to it.
  - The class `GridWidget` holds `focus` and `sortConfig`.
- `App` (`app.dfy`): the sheet's pure grid operations and their lemmas. The
  class `Sheet` holds the state; its methods are the handlers. `Valid()` is the
  invariant: `rows ≥ 1`, `cols ≥ 1`, and `data` has `rows` rows of `cols` cells.

Behaviour of the code worth noting, all modelled as written:

- An edit or a sort made while a filter is shown replaces `data` with the
  edited or sorted *filtered* rows, written back by position
  (`src/App.jsx:189-192`). `rows` and the shown view stay unchanged.
  `Sheet.EditCell` and `Sheet.SortColumn` claim the invariant only when no
  filter is active.
- An edit outside the grid leaves it unchanged; it is not treated as an error.
- Focus is not moved back inside the grid after a resize or a delete.
- `splice` past the end appends (insert) or removes nothing (delete). A delete
  with an index past the end still decrements the count. So the invariant is
  claimed for a delete only when the index is inside the grid. While no filter
  is shown, every context-menu request provides that (`MenuActionsFit`).
- Inserts and deletes do not reset the filter's view. While a filter is shown
  the menu is opened on the view's rows, whose count can differ from `rows`,
  so a row request need not fall inside the data.

The sort's comparison of two non-blank texts depends on `parseFloat`, `isNaN`
and `localeCompare`. It is a parameter `le`, where `le(x, y)` means ascending
order may put `x` before `y`; descending order swaps the arguments. Some
results hold for any `le`:

- the result is a permutation of the input;
- blank cells (missing or `''`) come after every non-blank one;
- the blank rows keep their order.

The result is ordered only when `le` is a total preorder on non-blank texts.

## Model

| member | source | states |
|---|---|---|
| `ColumnLabel.Label` | src/App.jsx:63-70 | a negative index has the empty label; every other index has a non-empty label made only of the letters A to Z |
| `ColumnLabel.GetColumnLabel` | src/App.jsx:63-70 | the while loop (prepend the letter of `index % 26`, continue with `floor(index / 26) - 1`) terminates and returns the label of `index` |
| `ColumnLabel.DecodeLabel` | src/App.jsx:63-70 | reading a label back in bijective base 26 gives the column index again |
| `ColumnLabel.LabelDecode` | src/App.jsx:63-70 | every word over A to Z is the label of the index it decodes to, so the labels of indices ≥ 0 are exactly these words |
| `ColumnLabel.LabelInjective` | src/App.jsx:63-70 | distinct non-negative indices have distinct labels |
| `ColumnLabel.HeaderLabelsDistinct` | src/components/ExcelGrid.jsx:4-11 | the widget's copy of the routine gives its header row pairwise distinct labels |
| `ColumnLabel.LabelExamples` | src/App.jsx:63-70 | 0 is A, 25 is Z, 26 is AA, 51 is AZ, 52 is BA, 701 is ZZ, 702 is AAA |
| `GridData.Splice` | src/App.jsx:91 | computes `Array.prototype.splice` on a copy for a non-negative start, clamping the start and the delete count; its contract is carried by `InsertAt` and `RemoveAt` |
| `GridData.InsertAt` | src/App.jsx:90-91 | `splice(idx, 0, x)` on a copy: one entry longer; `x` at `min(idx, length)`; entries before it unchanged; entries from it on shifted up by one |
| `GridData.RemoveAt` | src/App.jsx:112-113 | `splice(idx, 1)` on a copy: inside the sequence exactly the entry at `idx` goes and later ones shift down; past the end nothing changes |
| `GridData.RemoveInserted` | src/App.jsx:87-118 | removing at `idx` what was just inserted at `idx` gives back the original sequence |
| `GridData.Filter` | src/App.jsx:51-53 | computes `Array.prototype.filter`; its contract is carried by `FilterMultiplicity`, `FilterMembers`, `FilterIsSubsequence` and `FilterAll` |
| `GridData.FilterMultiplicity` | src/App.jsx:51-53 | each entry occurs in the filtered sequence as often as in the input when it satisfies the predicate, and not at all otherwise |
| `GridData.FilterMembers` | src/App.jsx:51-53 | an entry is in the filtered sequence iff it is in the input and satisfies the predicate |
| `GridData.FilterIsSubsequence` | src/App.jsx:51-53 | the filtered sequence is obtained from the input by deleting entries, without reordering |
| `GridData.FilterAll` | src/App.jsx:51-53 | a filter whose predicate holds of every entry returns the input unchanged |
| `App.CreateEmptyData` | src/App.jsx:9-13 | exactly `rows` rows of exactly `cols` cells, all empty |
| `App.ParseCount` | src/App.jsx:27-28 | the requested count is `max(1, n)`; zero and a value `parseInt` cannot read both give 1 |
| `App.ResizeRows` | src/App.jsx:30-34 | computes the resized rows (`Array.from` over the new count, each old row cut to `cols` cells, missing rows empty); its contract is carried by `ResizeRowsShape` and `ResizeRowsBack` |
| `App.ResizeCols` | src/App.jsx:41-45 | computes every row padded with `''` or cut to the new column count; its contract is carried by `ResizeColsShape` and `ResizeColsBack` |
| `App.ResizeRowsShape` | src/App.jsx:30-34 | from a rectangular grid: `newRows` rows of `cols` cells; the first `min(old, new)` rows kept; appended rows empty |
| `App.ResizeColsShape` | src/App.jsx:41-45 | from a rectangular grid: same row count, every row `newCols` cells; cells before `min(old, new)` kept; new cells empty |
| `App.ResizeRowsBack` | src/App.jsx:27-35 | growing the row count and shrinking it back restores the grid |
| `App.ResizeColsBack` | src/App.jsx:38-47 | growing the column count and shrinking it back restores the grid |
| `App.InsertRowInto` | src/App.jsx:88-93 | computes `splice(idx, 0, newRow)` on a copy of the rows; its contract is carried by `InsertRowShape` and `DeleteInsertedRow` |
| `App.InsertColInto` | src/App.jsx:99-103 | computes `splice(idx, 0, '')` on a copy of every row; its contract is carried by `InsertColShape` and `DeleteInsertedCol` |
| `App.DeleteRowFrom` | src/App.jsx:111-115 | computes `splice(idx, 1)` on a copy of the rows; its contract is carried by `DeleteRowShape` and `DeleteInsertedRow` |
| `App.DeleteColFrom` | src/App.jsx:122-126 | computes `splice(idx, 1)` on a copy of every row; its contract is carried by `DeleteColShape` and `DeleteInsertedCol` |
| `App.InsertRowShape` | src/App.jsx:87-96 | one more row, rectangular, an empty row at the insertion point, rows before it unchanged, rows from it shifted down |
| `App.InsertColShape` | src/App.jsx:98-106 | one more column, rectangular, an empty cell at the insertion point in every row, cells before it unchanged, cells from it shifted right |
| `App.DeleteRowShape` | src/App.jsx:109-118 | for an index inside the grid: exactly that row goes, one row fewer, still rectangular |
| `App.DeleteColShape` | src/App.jsx:120-129 | for an index inside the grid: exactly that cell goes from every row, one column fewer, still rectangular |
| `App.DeleteInsertedRow` | src/App.jsx:87-118 | deleting the row just inserted at the same index restores the grid |
| `App.DeleteInsertedCol` | src/App.jsx:98-129 | deleting the column just inserted at the same index restores the grid |
| `App.LowerStr` | src/App.jsx:52 | computes `toLowerCase` letter by letter (A to Z only); used by `RowMatches`, whose contract is carried by `FilterRowsSpec` |
| `App.Includes` | src/App.jsx:52 | computes `includes` by trying each start position; its contract is carried by `IncludesIff` |
| `App.RowMatches` | src/App.jsx:51-53 | computes the filter's test on one row; its contract is carried by `FilterRowsSpec` |
| `App.FilterRows` | src/App.jsx:51-53 | computes `data.filter` with that test; its contract is carried by `FilterRowsSpec` and `FilterEmptyNeedle` |
| `App.IncludesIff` | src/App.jsx:52 | `includes` holds exactly when the needle occurs at some position of the text |
| `App.FilterRowsSpec` | src/App.jsx:50-55 | the filtered rows form an order-preserving subsequence of the data; a row is kept iff its cell in the filter column (missing reads as `''`), lower-cased, contains the lower-cased needle; every copy of a kept row is kept, so each row occurs in the result as often as in the data when it matches and not at all otherwise |
| `App.FilterEmptyNeedle` | src/App.jsx:51-53 | an empty needle keeps every row |
| `App.MenuActions` | src/App.jsx:211-231 | computes the menu's buttons for a row, column or cell request; its contract is carried by `MenuActionsFit` |
| `App.MenuActionsFit` | src/App.jsx:211-231 | every button of a menu opened on the grid inserts at most one past the end or deletes an existing entry; a cell's menu has no delete |
| `App.Sheet.constructor` | src/App.jsx:16-24 | 10 rows and 8 columns of empty cells, filter on column 0 with an empty needle and no view, no menu; the invariant holds |
| `App.Sheet.HandleRowsChange` | src/App.jsx:27-36 | the new row count is the parsed count; data is resized to it; the filter view is reset; the invariant is kept |
| `App.Sheet.HandleColsChange` | src/App.jsx:38-47 | the new column count is the parsed count; every row is resized to it; the filter view is reset; the invariant is kept |
| `App.Sheet.SetFilterCol` | src/App.jsx:166-168 | the selector sets the filter column |
| `App.Sheet.SetFilterValue` | src/App.jsx:178-183 | the text field sets the needle |
| `App.Sheet.HandleApplyFilter` | src/App.jsx:50-55 | the view becomes the filtered rows, a subsequence of the data; the data is untouched |
| `App.Sheet.HandleClearFilter` | src/App.jsx:57-60 | no view (the full data shows) and an empty needle |
| `App.Sheet.ShowContextMenu` | src/App.jsx:73-82 | the menu opens for the clicked row, column or cell |
| `App.Sheet.CloseContextMenu` | src/App.jsx:84 | the menu closes |
| `App.Sheet.InsertRow` | src/App.jsx:87-96 | an empty row is inserted, the count grows by one, the menu closes; the invariant is kept |
| `App.Sheet.InsertCol` | src/App.jsx:98-106 | an empty column is inserted, the count grows by one, the menu closes; the invariant is kept |
| `App.Sheet.DeleteRow` | src/App.jsx:109-118 | with one row left nothing changes, not even the menu; otherwise the row goes, the count drops by one, the menu closes; the invariant is kept for an index inside the grid |
| `App.Sheet.DeleteCol` | src/App.jsx:120-129 | with one column left nothing changes, not even the menu; otherwise the column goes, the count drops by one, the menu closes; the invariant is kept for an index inside the grid |
| `App.Sheet.ChooseMenuAction` | src/App.jsx:211-231 | a menu button runs its insert or delete: an insert adds the row or column, raises that count by one and closes the menu; a delete with one row or column left changes nothing, not even the menu; any other delete removes the entry, lowers that count by one and closes the menu; the other count never changes; an action that fits the grid keeps the invariant |
| `App.Sheet.EditCell` | src/App.jsx:188-192 | the widget's edit of the shown rows becomes the data; unfiltered, the cell gets the text and the invariant is kept |
| `App.Sheet.SortColumn` | src/App.jsx:188-192 | the widget's sort of the shown rows becomes the data and the sort is recorded; unfiltered, the invariant is kept |
| `App.Sheet.KeyDown` | src/App.jsx:188-191 | navigation in the widget uses the shown row count and the column count; focus stays inside |
| `ExcelGrid.EditCell` | src/components/ExcelGrid.jsx:18-23 | same shape; the cell at (`row`, `col`) gets the text; every other cell is unchanged; a row index outside the grid leaves it as it was |
| `ExcelGrid.EditCellKeepsShape` | src/components/ExcelGrid.jsx:18-23 | an edit keeps a rectangular grid rectangular with the same dimensions |
| `ExcelGrid.EditCellUndo` | src/components/ExcelGrid.jsx:18-23 | typing the previous text back restores the grid |
| `ExcelGrid.FocusTarget` | src/components/ExcelGrid.jsx:25-51 | the reference target of a key: Tab and Shift+Tab step the row-major index by one while it stays inside the grid, arrows clamp; its contract is carried by `FocusTargetInBounds`, `TabForwardStep`, `TabBackwardStep`, `ArrowKeysMoveOneCell` and `NextFocus` |
| `ExcelGrid.NextFocus` | src/components/ExcelGrid.jsx:25-52 | the handler's branches compute exactly the reference target: row-major stepping for Tab and Shift+Tab, clamped moves for the arrows, no move for other keys |
| `ExcelGrid.FocusTargetInBounds` | src/components/ExcelGrid.jsx:25-52 | from a cell inside the grid, every key leads to a cell inside the grid |
| `ExcelGrid.TabForwardStep` | src/components/ExcelGrid.jsx:36-42 | Tab raises the row-major index by exactly one, except on the last cell, where focus stays |
| `ExcelGrid.TabForwardCases` | src/components/ExcelGrid.jsx:36-42 | Tab goes to the next column, or from the last column to column 0 of the next row, or nowhere from the last cell |
| `ExcelGrid.TabBackwardStep` | src/components/ExcelGrid.jsx:30-35 | Shift+Tab lowers the row-major index by exactly one, except on the first cell, where focus stays |
| `ExcelGrid.TabBackwardCases` | src/components/ExcelGrid.jsx:30-35 | Shift+Tab goes to the previous column, or from column 0 to the last column of the previous row, or nowhere from (0, 0) |
| `ExcelGrid.ArrowKeysMoveOneCell` | src/components/ExcelGrid.jsx:43-51 | an arrow changes one coordinate by exactly one, or by nothing exactly at that edge; the other coordinate is untouched; no wrap-around |
| `ExcelGrid.RowLe` | src/components/ExcelGrid.jsx:60-82 | the comparator as "may come first": a blank row only before another blank row, any row before a blank one, otherwise `le` on the two texts (arguments swapped for descending); its contract is carried by `SortRowsBlanksLast` and `SortRowsSorted` |
| `ExcelGrid.Insert` | src/components/ExcelGrid.jsx:60 | inserts one row into a sorted run after every row it may not precede; its contract is carried by `SortRowsPermutes`, `SortRowsBlanksLast`, `SortRowsKeepsBlankOrder` and `SortRowsSorted` |
| `ExcelGrid.SortRows` | src/components/ExcelGrid.jsx:60-82 | the stable sort by `RowLe` that specifies `[...data].sort(cmp)`; its contract is carried by the `SortRows…` lemmas and by `SortInPlace` |
| `ExcelGrid.SortRowsPermutes` | src/components/ExcelGrid.jsx:60-82 | the sorted rows are a permutation of the input, of the same length |
| `ExcelGrid.SortRowsBlanksLast` | src/components/ExcelGrid.jsx:64-71 | rows whose sort cell is blank come after every non-blank row, ascending or descending, whatever the text comparison |
| `ExcelGrid.SortRowsKeepsBlankOrder` | src/components/ExcelGrid.jsx:64-71 | blank rows compare equal, so the stable sort keeps their relative order |
| `ExcelGrid.SortRowsSorted` | src/components/ExcelGrid.jsx:60-82 | when the text comparison is a total preorder on non-blank texts, every row may precede every later one under the comparator |
| `ExcelGrid.SortRowsKeepsShape` | src/components/ExcelGrid.jsx:60 | sorting a rectangular grid leaves it rectangular with the same dimensions |
| `ExcelGrid.SortInPlace` | src/components/ExcelGrid.jsx:60-82 | the in-place insertion sort leaves the array holding the stable sort of its old contents |
| `ExcelGrid.SortedCopy` | src/components/ExcelGrid.jsx:60 | sorting a copy returns the stable sort of the rows and leaves them as they were |
| `ExcelGrid.GridWidget.constructor` | src/components/ExcelGrid.jsx:14-15 | focus starts at (0, 0) with no sort recorded |
| `ExcelGrid.GridWidget.HandleFocus` | src/components/ExcelGrid.jsx:147 | an input that receives focus becomes the focused cell |
| `ExcelGrid.GridWidget.HandleKeyDown` | src/components/ExcelGrid.jsx:25-56 | focus moves to the reference target, which is inside the grid |
| `ExcelGrid.GridWidget.HandleSort` | src/components/ExcelGrid.jsx:59-85 | returns the stable sort of the given rows and records the column and the direction |

## Left out

- Inserts and deletes while a filter is shown: the view is not reset and can outgrow `rows`, so a menu request on a shown row may lie past the data. The invariant is then not claimed for `App.Sheet.DeleteRow` and `App.Sheet.ChooseMenuAction`, and the model keeps that state as the code does.
- Rendering: the markup, styles and highlight classes are presentation only.
- Moving the browser's focus (`inputRefs`, `setTimeout`, `.focus()`): only the computed target cell is modelled.
- The context menu's screen coordinates and `preventDefault`: event plumbing.
- A click on a menu button also bubbles to the outer element, whose click handler closes the menu (`src/App.jsx:133`). The model keeps the handler and the closing as separate methods, so `DeleteRow` on one row leaves the menu open, as the handler itself does.
- Numeric and locale string comparison in the sort (`parseFloat`, `isNaN`, float subtraction, `localeCompare`): floating-point and locale dependent. They are the parameter `le`.
- `Array.prototype.sort` is modelled as a stable insertion sort. For a consistent comparator every stable sort gives this result. The real comparator mixes numeric and text order and need not be consistent. ECMA-262 then leaves the order implementation-defined (section 23.1.3.30 of the 2023 edition), so the model's claims hold only for the modelled algorithm.
- ExcelGrid.SortRowsSorted: ordering is proved only when `le` is a total preorder on non-blank texts. The stability of equal non-blank rows is not stated; only the order of the blank rows is.
- Parsing the size fields with `parseInt`: the handlers take the parsed integer, or none when the field is not a number.
- Unicode `toLowerCase`: case folding covers the letters A to Z only.
- React's batching of state updates: each handler is one atomic update.
- App.Sheet.EditCell: while a filter is on, the invariant is not claimed. The data becomes the edited filtered rows and `rows` goes stale, as in the code.
- App.Sheet.SortColumn: while a filter is on, the invariant is not claimed. The data becomes the sorted filtered rows and `rows` goes stale, as in the code.
- App.Sheet.DeleteRow: the invariant is claimed only for an index inside the grid. `splice` past the end removes nothing, but the count still drops.
- App.Sheet.DeleteCol: the invariant is claimed only for an index inside the grid, for the same reason.
- Negative indices passed to `splice`: every index comes from a rendered row or column and is never negative, so indices are natural numbers.
