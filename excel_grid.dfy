// The grid widget: the table of cell inputs with its own state, the focused
// cell and the last sort applied. It is handed the rows to show and the
// dimensions, and reports every new grid to its owner; here that report is
// the result of the operation.
module ExcelGrid {
  import opened GridData

  // ---------------------------------------------------------------------------
  // Editing one cell

  /** The grid after the cell at (`row`, `col`) is set to `value`; a row or
      column index outside the grid changes nothing. */
  function EditCell(data: Grid, row: int, col: int, value: string): (r: Grid)
    ensures |r| == |data|
    ensures forall i :: 0 <= i < |data| ==> |r[i]| == |data[i]|
    ensures forall i, j :: 0 <= i < |data| && 0 <= j < |data[i]| && (i, j) != (row, col) ==> r[i][j] == data[i][j]
    ensures 0 <= row < |data| && 0 <= col < |data[row]| ==> r[row][col] == value
    ensures !(0 <= row < |data|) ==> r == data
  {
    seq(|data|, i requires 0 <= i < |data| =>
      if i == row then seq(|data[i]|, j requires 0 <= j < |data[i]| => if j == col then value else data[i][j])
      else data[i])
  }

  /** An edit keeps the grid rectangular. */
  lemma EditCellKeepsShape(data: Grid, rows: int, cols: int, row: int, col: int, value: string)
    requires Rectangular(data, rows, cols)
    ensures Rectangular(EditCell(data, row, col, value), rows, cols)
  {
  }

  /** Typing the old text back undoes an edit. */
  lemma EditCellUndo(data: Grid, row: int, col: int, value: string)
    requires 0 <= row < |data| && 0 <= col < |data[row]|
    ensures EditCell(EditCell(data, row, col, value), row, col, data[row][col]) == data
  {
    var r := EditCell(EditCell(data, row, col, value), row, col, data[row][col]);
    forall i | 0 <= i < |data|
      ensures r[i] == data[i]
    {
      assert |r[i]| == |data[i]|;
    }
  }

  // ---------------------------------------------------------------------------
  // Keyboard navigation

  datatype Key = Tab(shift: bool) | ArrowRight | ArrowLeft | ArrowDown | ArrowUp | OtherKey

  datatype Focus = Focus(row: int, col: int)

  predicate InBounds(at: Focus, rows: int, columns: int) {
    0 <= at.row < rows && 0 <= at.col < columns
  }

  function Clamp(x: int, lo: int, hi: int): int {
    if x < lo then lo else if x > hi then hi else x
  }

  /** The position of a cell when the grid is read row by row. */
  function RowMajor(at: Focus, columns: int): int {
    at.row * columns + at.col
  }

  /** The cell `delta` places away in row-by-row reading order, or `at`
      itself when that would leave the grid. */
  function StepRowMajor(at: Focus, delta: int, rows: int, columns: int): Focus
    requires columns > 0
  {
    var k := RowMajor(at, columns) + delta;
    if 0 <= k < rows * columns then Focus(k / columns, k % columns) else at
  }

  /** Where focus goes on a key press: Tab and Shift+Tab step forward and back
      in reading order and stop at the first and last cell; the arrows move
      one cell and stop at the edges; any other key keeps focus. */
  function FocusTarget(key: Key, at: Focus, rows: int, columns: int): Focus
    requires columns > 0
  {
    match key
    case Tab(shift) => StepRowMajor(at, if shift then -1 else 1, rows, columns)
    case ArrowRight => Focus(at.row, Clamp(at.col + 1, 0, columns - 1))
    case ArrowLeft => Focus(at.row, Clamp(at.col - 1, 0, columns - 1))
    case ArrowDown => Focus(Clamp(at.row + 1, 0, rows - 1), at.col)
    case ArrowUp => Focus(Clamp(at.row - 1, 0, rows - 1), at.col)
    case OtherKey => at
  }

  /** Multiplying by a non-negative number keeps order. */
  lemma MulLe(a: int, b: int, c: int)
    requires c >= 0
    ensures a <= b ==> a * c <= b * c
  {
    if a <= b {
      assert b * c - a * c == (b - a) * c;
    }
  }

  /** Reading position `row * columns + col` back as a row and a column. */
  lemma RowMajorDivMod(row: int, col: int, columns: int)
    requires 0 <= col < columns
    ensures (row * columns + col) / columns == row
    ensures (row * columns + col) % columns == col
  {
    var n := row * columns + col;
    var q, m := n / columns, n % columns;
    var d := row - q;
    assert d * columns == m - col by {
      assert n == q * columns + m;
      assert d * columns == row * columns - q * columns;
    }
    MulLe(1, d, columns);
    MulLe(d, -1, columns);
  }

  lemma RowMajorBelowEnd(at: Focus, rows: int, columns: int)
    requires InBounds(at, rows, columns)
    ensures 0 <= RowMajor(at, columns) < rows * columns
    ensures RowMajor(at, columns) == rows * columns - 1 <==> at == Focus(rows - 1, columns - 1)
  {
    var r := at.row;
    MulLe(0, r, columns);
    MulLe(r + 1, rows, columns);
    MulLe(r + 2, rows, columns);
    assert (r + 1) * columns == r * columns + columns;
    assert (r + 2) * columns == r * columns + 2 * columns;
    assert (rows - 1) * columns == rows * columns - columns;
  }

  /** A position in reading order inside the grid names a cell inside the grid. */
  lemma FromRowMajorInBounds(k: int, rows: int, columns: int)
    requires columns > 0 && 0 <= k < rows * columns
    ensures InBounds(Focus(k / columns, k % columns), rows, columns)
    ensures RowMajor(Focus(k / columns, k % columns), columns) == k
  {
    var q, m := k / columns, k % columns;
    assert k == q * columns + m;
    MulLe(rows, q, columns);
    MulLe(q, -1, columns);
  }

  /** Tab in coordinates: the next column, else the first column of the next
      row, else (on the last cell) nowhere. */
  lemma TabForwardCases(at: Focus, rows: int, columns: int)
    requires InBounds(at, rows, columns)
    ensures StepRowMajor(at, 1, rows, columns) ==
      if at.col < columns - 1 then Focus(at.row, at.col + 1)
      else if at.row < rows - 1 then Focus(at.row + 1, 0)
      else at
  {
    RowMajorBelowEnd(at, rows, columns);
    if at.col < columns - 1 {
      RowMajorDivMod(at.row, at.col + 1, columns);
      RowMajorBelowEnd(Focus(at.row, at.col + 1), rows, columns);
    } else if at.row < rows - 1 {
      assert RowMajor(at, columns) + 1 == (at.row + 1) * columns + 0;
      RowMajorDivMod(at.row + 1, 0, columns);
      RowMajorBelowEnd(Focus(at.row + 1, 0), rows, columns);
    }
  }

  /** Shift+Tab in coordinates: the previous column, else the last column of
      the previous row, else (on the first cell) nowhere. */
  lemma TabBackwardCases(at: Focus, rows: int, columns: int)
    requires InBounds(at, rows, columns)
    ensures StepRowMajor(at, -1, rows, columns) ==
      if at.col > 0 then Focus(at.row, at.col - 1)
      else if at.row > 0 then Focus(at.row - 1, columns - 1)
      else at
  {
    RowMajorBelowEnd(at, rows, columns);
    if at.col > 0 {
      RowMajorDivMod(at.row, at.col - 1, columns);
      RowMajorBelowEnd(Focus(at.row, at.col - 1), rows, columns);
    } else if at.row > 0 {
      assert RowMajor(at, columns) - 1 == (at.row - 1) * columns + (columns - 1);
      RowMajorDivMod(at.row - 1, columns - 1, columns);
      RowMajorBelowEnd(Focus(at.row - 1, columns - 1), rows, columns);
    }
  }

  /** Focus never leaves the grid. */
  lemma FocusTargetInBounds(key: Key, at: Focus, rows: int, columns: int)
    requires InBounds(at, rows, columns)
    ensures InBounds(FocusTarget(key, at, rows, columns), rows, columns)
  {
    if key.Tab? {
      var k := RowMajor(at, columns) + (if key.shift then -1 else 1);
      if 0 <= k < rows * columns {
        FromRowMajorInBounds(k, rows, columns);
      }
    }
  }

  /** Tab moves to the next cell in reading order, and stays put on the last cell. */
  lemma TabForwardStep(at: Focus, rows: int, columns: int)
    requires InBounds(at, rows, columns)
    ensures var next := FocusTarget(Tab(false), at, rows, columns);
      if at == Focus(rows - 1, columns - 1) then next == at
      else RowMajor(next, columns) == RowMajor(at, columns) + 1
  {
    RowMajorBelowEnd(at, rows, columns);
    var k := RowMajor(at, columns) + 1;
    if k < rows * columns {
      FromRowMajorInBounds(k, rows, columns);
    }
  }

  /** Shift+Tab moves to the previous cell in reading order, and stays put on the first cell. */
  lemma TabBackwardStep(at: Focus, rows: int, columns: int)
    requires InBounds(at, rows, columns)
    ensures var next := FocusTarget(Tab(true), at, rows, columns);
      if at == Focus(0, 0) then next == at
      else RowMajor(next, columns) == RowMajor(at, columns) - 1
  {
    RowMajorBelowEnd(at, rows, columns);
    var k := RowMajor(at, columns) - 1;
    if at != Focus(0, 0) {
      if at.row > 0 {
        assert (at.row - 1) * columns >= 0;
      }
      assert k >= 0;
      FromRowMajorInBounds(k, rows, columns);
    } else {
      assert k == -1;
    }
  }

  /** An arrow key moves along one axis by one cell, or not at all at the edge. */
  lemma ArrowKeysMoveOneCell(key: Key, at: Focus, rows: int, columns: int)
    requires key.ArrowRight? || key.ArrowLeft? || key.ArrowDown? || key.ArrowUp?
    requires InBounds(at, rows, columns)
    ensures var next := FocusTarget(key, at, rows, columns);
      var dr, dc := next.row - at.row, next.col - at.col;
      (key.ArrowRight? ==> dr == 0 && (dc == 1 <==> at.col < columns - 1) && (dc == 0 <==> at.col == columns - 1))
      && (key.ArrowLeft? ==> dr == 0 && (dc == -1 <==> at.col > 0) && (dc == 0 <==> at.col == 0))
      && (key.ArrowDown? ==> dc == 0 && (dr == 1 <==> at.row < rows - 1) && (dr == 0 <==> at.row == rows - 1))
      && (key.ArrowUp? ==> dc == 0 && (dr == -1 <==> at.row > 0) && (dr == 0 <==> at.row == 0))
  {
  }

  /** The key handler's navigation arithmetic: the next cell to focus after
      `key` is pressed in the input at (`row`, `col`). */
  method NextFocus(key: Key, row: int, col: int, rows: int, columns: int) returns (nextRow: int, nextCol: int)
    requires InBounds(Focus(row, col), rows, columns)
    ensures Focus(nextRow, nextCol) == FocusTarget(key, Focus(row, col), rows, columns)
  {
    nextRow, nextCol := row, col;
    if key.Tab? {
      if key.shift {
        TabBackwardCases(Focus(row, col), rows, columns);
        if col > 0 {
          nextCol := col - 1;
        } else if row > 0 {
          nextRow, nextCol := row - 1, columns - 1;
        }
      } else {
        TabForwardCases(Focus(row, col), rows, columns);
        if col < columns - 1 {
          nextCol := col + 1;
        } else if row < rows - 1 {
          nextRow, nextCol := row + 1, 0;
        }
      }
    } else if key.ArrowRight? {
      if col < columns - 1 {
        nextCol := col + 1;
      }
    } else if key.ArrowLeft? {
      if col > 0 {
        nextCol := col - 1;
      }
    } else if key.ArrowDown? {
      if row < rows - 1 {
        nextRow := row + 1;
      }
    } else if key.ArrowUp? {
      if row > 0 {
        nextRow := row - 1;
      }
    }
  }

  // ---------------------------------------------------------------------------
  // Sorting by a column

  datatype Direction = Asc | Desc

  datatype SortConfig = Unsorted | SortConfig(col: nat, direction: Direction)

  /** A sort request. `le` stands for the comparison of two non-blank cell
      texts (numeric when both parse as numbers, locale order otherwise):
      `le(x, y)` holds when ascending order may put `x` before `y`. */
  datatype SortOrder = SortOrder(col: nat, direction: Direction, le: (string, string) -> bool)

  /** A missing cell and the empty text count as blank. */
  predicate IsBlank(row: Row, col: nat) {
    col >= |row| || row[col] == ""
  }

  /** The comparator says `a` may come before `b` (it returns at most 0):
      blanks after everything else and equal to each other; non-blank cells
      by `le`, reversed for descending order. */
  predicate RowLe(a: Row, b: Row, o: SortOrder) {
    if IsBlank(a, o.col) then IsBlank(b, o.col)
    else if IsBlank(b, o.col) then true
    else match o.direction
      case Asc => o.le(a[o.col], b[o.col])
      case Desc => o.le(b[o.col], a[o.col])
  }

  /** Insert `x` after the last entry of `sorted` that may precede it. */
  function Insert(sorted: Grid, x: Row, o: SortOrder): Grid
    decreases |sorted|
  {
    if sorted == [] || RowLe(sorted[|sorted| - 1], x, o) then sorted + [x]
    else Insert(sorted[..|sorted| - 1], x, o) + [sorted[|sorted| - 1]]
  }

  /** The stable sort of `data` under the comparator, by insertion. */
  function SortRows(data: Grid, o: SortOrder): Grid
    decreases |data|
  {
    if data == [] then [] else Insert(SortRows(data[..|data| - 1], o), data[|data| - 1], o)
  }

  ghost predicate TotalPreorder(le: (string, string) -> bool) {
    && (forall x, y :: x != "" && y != "" ==> le(x, y) || le(y, x))
    && (forall x, y, z :: x != "" && y != "" && z != "" && le(x, y) && le(y, z) ==> le(x, z))
  }

  ghost predicate Sorted(s: Grid, o: SortOrder) {
    forall i, j :: 0 <= i < j < |s| ==> RowLe(s[i], s[j], o)
  }

  ghost predicate BlanksLast(s: Grid, col: nat) {
    forall i, j :: 0 <= i < j < |s| && IsBlank(s[i], col) ==> IsBlank(s[j], col)
  }

  /** The blank rows of `s`, in their order in `s`. */
  function Blanks(s: Grid, col: nat): Grid {
    Filter(s, row => IsBlank(row, col))
  }

  lemma {:induction false} InsertPermutes(t: Grid, x: Row, o: SortOrder)
    ensures multiset(Insert(t, x, o)) == multiset(t) + multiset{x}
    ensures |Insert(t, x, o)| == |t| + 1
    decreases |t|
  {
    if t != [] && !RowLe(t[|t| - 1], x, o) {
      var p := t[..|t| - 1];
      InsertPermutes(p, x, o);
      assert t == p + [t[|t| - 1]];
    }
  }

  /** Sorting rearranges the rows and keeps every one of them. */
  lemma {:induction false} SortRowsPermutes(data: Grid, o: SortOrder)
    ensures multiset(SortRows(data, o)) == multiset(data)
    ensures |SortRows(data, o)| == |data|
    decreases |data|
  {
    if data != [] {
      var p := data[..|data| - 1];
      SortRowsPermutes(p, o);
      InsertPermutes(SortRows(p, o), data[|data| - 1], o);
      assert data == p + [data[|data| - 1]];
    }
  }

  lemma {:induction false} InsertBlanksLast(t: Grid, x: Row, o: SortOrder)
    requires BlanksLast(t, o.col)
    ensures BlanksLast(Insert(t, x, o), o.col)
    decreases |t|
  {
    if t != [] && !RowLe(t[|t| - 1], x, o) {
      var p := t[..|t| - 1];
      var last := t[|t| - 1];
      InsertBlanksLast(p, x, o);
      InsertPermutes(p, x, o);
      var r := Insert(p, x, o);
      // `x` is not blank and `last` may not precede it, so `last` is blank
      // or everything before it is non-blank.
      forall i | 0 <= i < |r| && IsBlank(r[i], o.col)
        ensures IsBlank(last, o.col)
      {
        assert r[i] in multiset(r);
        if r[i] != x {
          assert r[i] in multiset(p);
          var k :| 0 <= k < |p| && p[k] == r[i];
          assert t[k] == p[k];
        }
      }
    }
  }

  /** Blank rows end up after every non-blank row, in either direction and
      whatever `le` is. */
  lemma {:induction false} SortRowsBlanksLast(data: Grid, o: SortOrder)
    ensures BlanksLast(SortRows(data, o), o.col)
    decreases |data|
  {
    if data != [] {
      SortRowsBlanksLast(data[..|data| - 1], o);
      InsertBlanksLast(SortRows(data[..|data| - 1], o), data[|data| - 1], o);
    }
  }

  lemma {:induction false} InsertKeepsBlankOrder(t: Grid, x: Row, o: SortOrder)
    ensures Blanks(Insert(t, x, o), o.col) == Blanks(t, o.col) + Blanks([x], o.col)
    decreases |t|
  {
    var keep := row => IsBlank(row, o.col);
    if t == [] || RowLe(t[|t| - 1], x, o) {
      FilterConcat(t, [x], keep);
    } else {
      var p, last := t[..|t| - 1], t[|t| - 1];
      InsertKeepsBlankOrder(p, x, o);
      FilterConcat(Insert(p, x, o), [last], keep);
      FilterConcat(p, [last], keep);
      FilterConcat(p, [x], keep);
      assert t == p + [last];
      // `x` is not blank here, and `last` is.
      assert Blanks([x], o.col) == [];
    }
  }

  /** The blank rows keep their relative order. */
  lemma {:induction false} SortRowsKeepsBlankOrder(data: Grid, o: SortOrder)
    ensures Blanks(SortRows(data, o), o.col) == Blanks(data, o.col)
    decreases |data|
  {
    if data != [] {
      var p, last := data[..|data| - 1], data[|data| - 1];
      SortRowsKeepsBlankOrder(p, o);
      InsertKeepsBlankOrder(SortRows(p, o), last, o);
      FilterConcat(p, [last], row => IsBlank(row, o.col));
      assert data == p + [last];
    }
  }

  lemma RowLeTotalPreorder(o: SortOrder)
    requires TotalPreorder(o.le)
    ensures forall a, b :: RowLe(a, b, o) || RowLe(b, a, o)
    ensures forall a, b, c :: RowLe(a, b, o) && RowLe(b, c, o) ==> RowLe(a, c, o)
  {
    forall a, b, c | RowLe(a, b, o) && RowLe(b, c, o)
      ensures RowLe(a, c, o)
    {
      if !IsBlank(a, o.col) && !IsBlank(b, o.col) && !IsBlank(c, o.col) {
        assert a[o.col] != "" && b[o.col] != "" && c[o.col] != "";
      }
    }
    forall a, b
      ensures RowLe(a, b, o) || RowLe(b, a, o)
    {
      if !IsBlank(a, o.col) && !IsBlank(b, o.col) {
        assert a[o.col] != "" && b[o.col] != "";
      }
    }
  }

  lemma {:induction false} InsertSorted(t: Grid, x: Row, o: SortOrder)
    requires TotalPreorder(o.le)
    requires Sorted(t, o)
    ensures Sorted(Insert(t, x, o), o)
    decreases |t|
  {
    RowLeTotalPreorder(o);
    if t != [] {
      var p, last := t[..|t| - 1], t[|t| - 1];
      if RowLe(last, x, o) {
        assert forall i :: 0 <= i < |t| - 1 ==> RowLe(t[i], last, o);
      } else {
        InsertSorted(p, x, o);
        InsertPermutes(p, x, o);
        var r := Insert(p, x, o);
        forall i | 0 <= i < |r|
          ensures RowLe(r[i], last, o)
        {
          assert r[i] in multiset(r);
          if r[i] != x {
            assert r[i] in multiset(p);
            var k :| 0 <= k < |p| && p[k] == r[i];
            assert t[k] == p[k];
          }
        }
      }
    }
  }

  /** When `le` is a total preorder on non-blank texts, the result is in order. */
  lemma {:induction false} SortRowsSorted(data: Grid, o: SortOrder)
    requires TotalPreorder(o.le)
    ensures Sorted(SortRows(data, o), o)
    decreases |data|
  {
    if data != [] {
      SortRowsSorted(data[..|data| - 1], o);
      InsertSorted(SortRows(data[..|data| - 1], o), data[|data| - 1], o);
    }
  }

  /** Sorting keeps the grid rectangular. */
  lemma SortRowsKeepsShape(data: Grid, rows: int, cols: int, o: SortOrder)
    requires Rectangular(data, rows, cols)
    ensures Rectangular(SortRows(data, o), rows, cols)
  {
    SortRowsPermutes(data, o);
    var r := SortRows(data, o);
    forall i | 0 <= i < |r|
      ensures |r[i]| == cols
    {
      assert r[i] in multiset(data);
    }
  }

  /** Moving the insertion point one entry left past an entry that may not
      precede `x` does not change the outcome. */
  lemma InsertStep(prefix: Grid, x: Row, o: SortOrder, j: nat)
    requires 0 < j <= |prefix|
    requires !RowLe(prefix[j - 1], x, o)
    ensures Insert(prefix[..j], x, o) + prefix[j..] == Insert(prefix[..j - 1], x, o) + prefix[j - 1..]
  {
    var p := prefix[..j];
    assert p[..|p| - 1] == prefix[..j - 1];
    assert prefix[j - 1..] == [p[|p| - 1]] + prefix[j..];
  }

  /** One step of insertion sort: `a[..i]` is sorted; move `a[i]` left past
      the entries the comparator puts strictly after it. */
  method InsertInPlace(a: array<Row>, i: nat, o: SortOrder)
    requires i < a.Length
    modifies a
    ensures a[..i + 1] == Insert(old(a[..i]), old(a[i]), o)
    ensures a[i + 1..] == old(a[i + 1..])
  {
    ghost var prefix := a[..i];
    var x := a[i];
    var j := i;
    assert prefix[..i] == prefix;
    while j > 0 && !RowLe(a[j - 1], x, o)
      invariant 0 <= j <= i
      invariant forall k :: 0 <= k < j ==> a[k] == prefix[k]
      invariant forall k :: j < k <= i ==> a[k] == prefix[k - 1]
      invariant forall k :: i < k < a.Length ==> a[k] == old(a[k])
      invariant Insert(prefix, x, o) == Insert(prefix[..j], x, o) + prefix[j..]
    {
      InsertStep(prefix, x, o, j);
      a[j] := a[j - 1];
      j := j - 1;
    }
    a[j] := x;
    assert a[..i + 1] == prefix[..j] + [x] + prefix[j..];
  }

  /** The built-in in-place sort, as a stable insertion sort. */
  method SortInPlace(a: array<Row>, o: SortOrder)
    modifies a
    ensures a[..] == SortRows(old(a[..]), o)
  {
    var i := 0;
    while i < a.Length
      invariant 0 <= i <= a.Length
      invariant a[..i] == SortRows(old(a[..])[..i], o)
      invariant a[i..] == old(a[..])[i..]
    {
      InsertInPlace(a, i, o);
      assert old(a[..])[..i + 1][..i] == old(a[..])[..i];
      i := i + 1;
    }
    assert old(a[..])[..a.Length] == old(a[..]);
  }

  /** `[...data].sort(comparator)`: the sorted copy, leaving `data` as it is. */
  method SortedCopy(data: Grid, o: SortOrder) returns (sorted: Grid)
    ensures sorted == SortRows(data, o)
  {
    var a := new Row[|data|](i requires 0 <= i < |data| => data[i]);
    assert a[..] == data;
    SortInPlace(a, o);
    sorted := a[..];
  }

  // ---------------------------------------------------------------------------
  // The widget's own state

  class GridWidget {
    var focus: Focus
    var sortConfig: SortConfig

    constructor()
      ensures focus == Focus(0, 0) && sortConfig == Unsorted
    {
      focus := Focus(0, 0);
      sortConfig := Unsorted;
    }

    /** An input receiving focus by mouse or tab becomes the focused cell. */
    method HandleFocus(row: int, col: int)
      modifies this`focus
      ensures focus == Focus(row, col)
    {
      focus := Focus(row, col);
    }

    /** A key pressed in the input at (`row`, `col`) of a grid showing `rows`
        rows and `columns` columns. */
    method HandleKeyDown(key: Key, row: int, col: int, rows: int, columns: int)
      requires InBounds(Focus(row, col), rows, columns)
      modifies this`focus
      ensures focus == FocusTarget(key, Focus(row, col), rows, columns)
      ensures InBounds(focus, rows, columns)
    {
      var nextRow, nextCol := NextFocus(key, row, col, rows, columns);
      focus := Focus(nextRow, nextCol);
      FocusTargetInBounds(key, Focus(row, col), rows, columns);
    }

    /** A click on a column's sort arrow: records the sort and returns the
        sorted rows for the owner to store. */
    method HandleSort(data: Grid, colIdx: nat, direction: Direction, le: (string, string) -> bool)
      returns (sorted: Grid)
      modifies this`sortConfig
      ensures sorted == SortRows(data, SortOrder(colIdx, direction, le))
      ensures sortConfig == SortConfig(colIdx, direction)
    {
      sorted := SortedCopy(data, SortOrder(colIdx, direction, le));
      sortConfig := SortConfig(colIdx, direction);
    }
  }
}
