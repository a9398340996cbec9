/** The keyboard cursor of the grid (`firstUpdated`, `_onKeyUp`) as pure
    functions of the cursor cell. Rows run from 0 to the row count minus
    one; column 0 is the checkbox column and the data columns are 1 to the
    number of rendered columns. `lastCol` is the bound the Right arrow
    stops at: the original uses `config.length`, which is the last column
    whenever a configuration is given. */
module Navigation {
  import opened GridData
  import opened Columns
  import opened Eligibility

  /** (row, column) of a grid cell. */
  type Cell = (nat, nat)

  const ArrowUp: string := "ArrowUp"
  const ArrowDown: string := "ArrowDown"
  const ArrowRight: string := "ArrowRight"
  const ArrowLeft: string := "ArrowLeft"

  predicate IsArrow(key: string)
  {
    key == ArrowUp || key == ArrowDown || key == ArrowRight || key == ArrowLeft
  }

  /** The cell exists in a grid of `rowCount` rows and `colCount` data columns. */
  predicate InGrid(rowCount: nat, colCount: nat, cell: Cell)
  {
    cell.0 < rowCount && cell.1 <= colCount
  }

  /** The cell carries the `disabled` attribute: only row checkboxes (column
      0) do, when `_isSelectable` holds of their row. */
  predicate CellDisabled(criteria: Criteria, rows: seq<Row>, cell: Cell)
  {
    cell.1 == 0 && cell.0 < |rows| && IsSelectable(criteria, rows[cell.0])
  }

  /** The cell `firstUpdated` makes reachable: (0, 0), or (0, 1) when the
      first row's checkbox is disabled. */
  function InitialCell(criteria: Criteria, rows: seq<Row>): (c: Cell)
    requires |rows| > 0
    ensures c.0 == 0 && (c.1 == 1 <==> IsSelectable(criteria, rows[0])) && c.1 <= 1
    ensures !CellDisabled(criteria, rows, c)
  {
    if CellDisabled(criteria, rows, (0, 0)) then (0, 1) else (0, 0)
  }

  /** The `switch` of `_onKeyUp`: the step for an arrow key (none at an
      edge), nothing for any other key. */
  function Delta(key: string, cell: Cell, rowCount: nat, lastCol: nat): (d: Option<(int, int)>)
    ensures d.None? <==> !IsArrow(key)
    ensures d.Some? ==> 0 <= cell.0 + d.value.0 && 0 <= cell.1 + d.value.1
    ensures d.Some? && InGrid(rowCount, lastCol, cell) ==> InGrid(rowCount, lastCol, (cell.0 + d.value.0, cell.1 + d.value.1))
  {
    if key == ArrowUp then Some((if cell.0 == 0 then 0 else -1, 0))
    else if key == ArrowDown then Some((if cell.0 == rowCount - 1 then 0 else 1, 0))
    else if key == ArrowRight then Some((0, if cell.1 == lastCol then 0 else 1))
    else if key == ArrowLeft then Some((0, if cell.1 == 0 then 0 else -1))
    else None
  }

  /** The cursor after a key: apply the step, then step right once if the
      cell reached is disabled. For a cursor inside a grid with at least one
      configured column, the result is inside the grid and, after an arrow
      key, never a disabled cell; any other key leaves the cursor alone. */
  function Navigate(criteria: Criteria, rows: seq<Row>, lastCol: nat, cell: Cell, key: string): (c: Cell)
    ensures !IsArrow(key) ==> c == cell
    ensures lastCol >= 1 && InGrid(|rows|, lastCol, cell) ==> InGrid(|rows|, lastCol, c)
    ensures lastCol >= 1 && InGrid(|rows|, lastCol, cell) && IsArrow(key) ==> !CellDisabled(criteria, rows, c)
  {
    match Delta(key, cell, |rows|, lastCol)
    case None => cell
    case Some(d) =>
      var moved: Cell := (cell.0 + d.0, cell.1 + d.1);
      if CellDisabled(criteria, rows, moved) then (moved.0, moved.1 + 1) else moved
  }

  /** The moves of the key table, written as clamps: Up and Left stop at 0,
      Down at the last row, Right at the last data column. */
  function Clamped(rowCount: nat, lastCol: nat, cell: Cell, key: string): Cell
  {
    if key == ArrowUp then (if cell.0 > 0 then cell.0 - 1 else 0, cell.1)
    else if key == ArrowDown then (if cell.0 + 1 < rowCount then cell.0 + 1 else cell.0, cell.1)
    else if key == ArrowRight then (cell.0, if cell.1 < lastCol then cell.1 + 1 else cell.1)
    else if key == ArrowLeft then (cell.0, if cell.1 > 0 then cell.1 - 1 else 0)
    else cell
  }

  /** Inside the grid, an arrow key moves the cursor to the clamped cell,
      or one column right of it when that cell is disabled. */
  lemma NavigateIsClampedMove(criteria: Criteria, rows: seq<Row>, lastCol: nat, cell: Cell, key: string)
    requires InGrid(|rows|, lastCol, cell) && IsArrow(key)
    ensures var t := Clamped(|rows|, lastCol, cell, key);
            Navigate(criteria, rows, lastCol, cell, key)
            == if CellDisabled(criteria, rows, t) then (t.0, t.1 + 1) else t
  {
  }

  /** The cursor after a sequence of key presses. */
  function Walk(criteria: Criteria, rows: seq<Row>, lastCol: nat, cell: Cell, keys: seq<string>): Cell
    decreases |keys|
  {
    if |keys| == 0 then cell
    else Walk(criteria, rows, lastCol, Navigate(criteria, rows, lastCol, cell, keys[0]), keys[1..])
  }

  /** From the initial cell, any sequence of key presses keeps the cursor
      inside the grid and off disabled cells. */
  lemma {:induction false} WalkStaysInGrid(criteria: Criteria, rows: seq<Row>, lastCol: nat, cell: Cell, keys: seq<string>)
    requires lastCol >= 1 && InGrid(|rows|, lastCol, cell) && !CellDisabled(criteria, rows, cell)
    ensures InGrid(|rows|, lastCol, Walk(criteria, rows, lastCol, cell, keys))
    ensures !CellDisabled(criteria, rows, Walk(criteria, rows, lastCol, cell, keys))
    decreases |keys|
  {
    if |keys| > 0 {
      WalkStaysInGrid(criteria, rows, lastCol, Navigate(criteria, rows, lastCol, cell, keys[0]), keys[1..]);
    }
  }

  /** The Right-arrow bound as written: the length of the configuration. */
  function NavigateAsWritten(criteria: Criteria, rows: seq<Row>, config: seq<Column>, cell: Cell, key: string): Cell
  {
    Navigate(criteria, rows, |config|, cell, key)
  }

  /** With an empty configuration the table shows the first row's fields,
      but the Right-arrow bound is 0: from column 0 the cursor never
      reaches a data column, and from column 1 it leaves the grid. */
  lemma RightArrowWithoutConfig()
    ensures var rows := [[Field("status", Str("ready"))]];
            var criteria := Criteria("status", []);
            && ColumnCount([], criteria, rows) == 1
            && InitialCell(criteria, rows) == (0, 1)
            && NavigateAsWritten(criteria, rows, [], (0, 1), ArrowRight) == (0, 2)
            && !InGrid(|rows|, ColumnCount([], criteria, rows), (0, 2))
    ensures var rows := [[Field("status", Str("ready"))]];
            var criteria := Criteria("status", [Str("ready")]);
            && InitialCell(criteria, rows) == (0, 0)
            && NavigateAsWritten(criteria, rows, [], (0, 0), ArrowRight) == (0, 0)
  {
    var rows := [[Field("status", Str("ready"))]];
    assert Names(rows[0]) == ["status"];
  }

  /** The bound evidently intended: the number of rendered data columns. */
  function NavigateCorrected(criteria: Criteria, rows: seq<Row>, config: seq<Column>, cell: Cell, key: string): Cell
    requires |config| > 0 || |rows| > 0
  {
    Navigate(criteria, rows, ColumnCount(config, criteria, rows), cell, key)
  }

  /** With the corrected bound, for any configuration (empty included) the
      cursor stays inside the rendered grid, lands on an enabled cell, and
      the Right arrow reaches the next column whenever there is one. */
  lemma CorrectedRightArrow(criteria: Criteria, rows: seq<Row>, config: seq<Column>, cell: Cell, key: string)
    requires |rows| > 0 && ColumnCount(config, criteria, rows) >= 1
    requires InGrid(|rows|, ColumnCount(config, criteria, rows), cell)
    ensures InGrid(|rows|, ColumnCount(config, criteria, rows), NavigateCorrected(criteria, rows, config, cell, key))
    ensures IsArrow(key) ==> !CellDisabled(criteria, rows, NavigateCorrected(criteria, rows, config, cell, key))
    ensures key == ArrowRight && cell.1 < ColumnCount(config, criteria, rows)
            ==> NavigateCorrected(criteria, rows, config, cell, key) == (cell.0, cell.1 + 1)
    ensures |config| > 0 ==> NavigateCorrected(criteria, rows, config, cell, key)
                             == NavigateAsWritten(criteria, rows, config, cell, key)
  {
  }
}
