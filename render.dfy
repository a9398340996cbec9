/** The attributes `render` puts on the table: per row a checkbox cell
    (column 0) carrying the row position as `data-index` and `disabled`
    when `_isSelectable` holds, then one cell per resolved key carrying
    its coordinates and the `selection-criteria`/`pass-criteria` flags.
    Every cell is rendered with `tabindex` -1. */
module Render {
  import opened GridData
  import opened Columns
  import opened Eligibility
  import opened Navigation

  datatype CheckboxView = CheckboxView(gridRow: nat, gridCol: nat, dataIndex: nat, disabled: bool, tabindex: int)
  datatype CellView = CellView(gridRow: nat, gridCol: nat, selectionCriteria: bool, passCriteria: bool, tabindex: int, content: Scalar)
  datatype RowView = RowView(checkbox: CheckboxView, cells: seq<CellView>)
  datatype HeaderView = HeaderView(text: string, selectionCriteria: bool)
  datatype View = NoData | Table(headers: seq<HeaderView>, body: seq<RowView>)

  function RenderCell(criteria: Criteria, row: Row, rowIdx: nat, key: string, colIdx: nat): CellView
  {
    var selectionColumn := key == criteria.key;
    CellView(rowIdx, colIdx + 1, selectionColumn,
             selectionColumn && Get(row, key) in criteria.values, -1, Get(row, key))
  }

  function RenderRow(criteria: Criteria, keys: seq<string>, row: Row, rowIdx: nat): (v: RowView)
    ensures v.checkbox.gridRow == rowIdx && v.checkbox.gridCol == 0 && v.checkbox.dataIndex == rowIdx
            && v.checkbox.tabindex == -1
    ensures v.checkbox.disabled <==> !Passes(criteria, row)
    ensures |v.cells| == |keys|
    ensures forall c :: 0 <= c < |keys| ==>
              && v.cells[c].gridRow == rowIdx && v.cells[c].gridCol == c + 1 && v.cells[c].tabindex == -1
              && v.cells[c].content == Get(row, keys[c])
              && (v.cells[c].selectionCriteria <==> keys[c] == criteria.key)
              && (v.cells[c].passCriteria <==> keys[c] == criteria.key && Passes(criteria, row))
  {
    RowView(CheckboxView(rowIdx, 0, rowIdx, IsSelectable(criteria, row), -1),
            seq(|keys|, c requires 0 <= c < |keys| => RenderCell(criteria, row, rowIdx, keys[c], c)))
  }

  /** `render`: a placeholder when there is no data, the table otherwise. */
  function Render(data: seq<Row>, config: seq<Column>, criteria: Criteria): (v: View)
    ensures v.NoData? <==> |data| == 0
    ensures v.Table? ==> |v.body| == |data|
                         && forall r :: 0 <= r < |data| ==> |v.body[r].cells| == |ProcessConfig(config, criteria, data).keys|
  {
    if |data| == 0 then NoData
    else
      var res := ProcessConfig(config, criteria, data);
      Table(seq(|res.labels|, i requires 0 <= i < |res.labels| =>
                  HeaderView(res.labels[i], res.selection == Some(res.labels[i]))),
            seq(|data|, r requires 0 <= r < |data| => RenderRow(criteria, res.keys, data[r], r)))
  }

  /** The `grid-row`/`grid-col` pair carried by element c of a rendered
      row: the checkbox for c == 0, the (c-1)-th key cell otherwise. */
  function CoordsAt(row: RowView, c: nat): Cell
    requires c <= |row.cells|
  {
    if c == 0 then (row.checkbox.gridRow, row.checkbox.gridCol)
    else (row.cells[c - 1].gridRow, row.cells[c - 1].gridCol)
  }

  /** The element at grid coordinates (r, c): the checkbox for c == 0, the
      (c-1)-th key cell otherwise; its `grid-row`/`grid-col` attributes are
      (r, c), the checkbox's `data-index` is r, and it starts unreachable.
      No other element carries (r, c), so a query by those attributes finds it. */
  lemma CoordinatesMatch(data: seq<Row>, config: seq<Column>, criteria: Criteria, cell: Cell)
    requires |data| > 0
    requires InGrid(|data|, |ProcessConfig(config, criteria, data).keys|, cell)
    ensures var row := Render(data, config, criteria).body[cell.0];
            && CoordsAt(row, cell.1) == cell
            && (if cell.1 == 0
                then row.checkbox.dataIndex == cell.0 && row.checkbox.tabindex == -1
                else row.cells[cell.1 - 1].tabindex == -1)
    ensures var body := Render(data, config, criteria).body;
            forall r: nat, c: nat ::
              InGrid(|data|, |ProcessConfig(config, criteria, data).keys|, (r, c)) && CoordsAt(body[r], c) == cell ==>
              (r, c) == cell
  {
  }

  /** Only checkboxes carry `disabled`, so the cell at (r, c) is disabled
      exactly when `CellDisabled` says so. */
  lemma DisabledMatchesView(data: seq<Row>, config: seq<Column>, criteria: Criteria, cell: Cell)
    requires |data| > 0
    requires InGrid(|data|, |ProcessConfig(config, criteria, data).keys|, cell)
    ensures CellDisabled(criteria, data, cell)
            <==> cell.1 == 0 && Render(data, config, criteria).body[cell.0].checkbox.disabled
  {
  }

  /** When the criteria key is one of the columns, a row's checkbox is
      enabled exactly when the row shows the pass-criteria flag. */
  lemma PassFlagIffEnabled(criteria: Criteria, keys: seq<string>, row: Row, rowIdx: nat)
    requires criteria.key in keys
    ensures var v := RenderRow(criteria, keys, row, rowIdx);
            !v.checkbox.disabled <==> exists c :: 0 <= c < |v.cells| && v.cells[c].passCriteria
  {
    var v := RenderRow(criteria, keys, row, rowIdx);
    var c :| 0 <= c < |keys| && keys[c] == criteria.key;
    assert v.cells[c] == RenderCell(criteria, row, rowIdx, keys[c], c);
  }
}
