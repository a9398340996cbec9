/** The selection grid `el-grid`: its roving-tabindex cursor, its row
    checkboxes, and the `el-grid#selectionChanged` events it dispatches,
    kept as a log in dispatch order. */
module Grid {
  import opened GridData
  import opened Masks
  import opened Columns
  import opened Eligibility
  import opened Navigation
  import opened Render
  import opened Aggregation

  /** The rows `selectAllItems` checks and reports: enabled, not yet checked. */
  function SelectAllTargets(criteria: Criteria, rows: seq<Row>, checked: seq<bool>): seq<nat>
    requires |checked| == |rows|
  {
    Indices(AndNot(EnabledMask(criteria, rows), checked))
  }

  /** The rows `unselectAllItems` clears and reports: every enabled row. */
  function UnselectAllTargets(criteria: Criteria, rows: seq<Row>): seq<nat>
  {
    Indices(EnabledMask(criteria, rows))
  }

  /** Extending the mask prefix by one position adds that position's event
      exactly when the mask holds there. */
  lemma EventsSnoc(checked: bool, m: seq<bool>, i: nat)
    requires i < |m|
    ensures AsEvents(checked, Indices(m[..i + 1]))
            == AsEvents(checked, Indices(m[..i])) + (if m[i] then [SelectionEvent(checked, i)] else [])
  {
    IndicesSnoc(m, i);
  }

  /** `selectAllItems` reports the enabled, unchecked rows and only those,
      in ascending row order; with N enabled rows of which M are checked
      there are N - M of them. */
  lemma SelectAllTargetsSpec(criteria: Criteria, rows: seq<Row>, checked: seq<bool>)
    requires |checked| == |rows|
    ensures Increasing(SelectAllTargets(criteria, rows, checked))
    ensures forall x: nat :: x in SelectAllTargets(criteria, rows, checked)
                             <==> x < |rows| && !IsSelectable(criteria, rows[x]) && !checked[x]
    ensures |SelectAllTargets(criteria, rows, checked)|
            == |Indices(EnabledMask(criteria, rows))| - |Indices(And(EnabledMask(criteria, rows), checked))|
  {
    var en := EnabledMask(criteria, rows);
    IndicesIncreasing(AndNot(en, checked));
    IndicesMembers(AndNot(en, checked));
    Partition(en, checked);
    assert |multiset(Indices(And(en, checked)))| + |multiset(Indices(AndNot(en, checked)))|
           == |multiset(Indices(en))|;
  }

  /** `unselectAllItems` reports every enabled row and only those, in
      ascending row order, as many as the download list's selectable count. */
  lemma UnselectAllTargetsSpec(criteria: Criteria, rows: seq<Row>)
    ensures Increasing(UnselectAllTargets(criteria, rows))
    ensures forall x: nat :: x in UnselectAllTargets(criteria, rows)
                             <==> x < |rows| && !IsSelectable(criteria, rows[x])
    ensures |UnselectAllTargets(criteria, rows)| == SelectableCount(criteria, rows)
  {
    IndicesIncreasing(EnabledMask(criteria, rows));
    IndicesMembers(EnabledMask(criteria, rows));
    SelectableCountIsEnabled(criteria, rows);
  }

  class ElGrid {
    const rows: seq<Row>
    const config: seq<Column>
    const criteria: Criteria
    /** Number of data columns; cells run over columns 0 (checkbox) to cols. */
    const cols: nat
    /** The `checked` attribute of each row checkbox. */
    const checked: array<bool>
    /** The `tabindex` attribute of the cell at (row, column). */
    const tabindex: array2<int>
    /** `_currentCell`. */
    var cursor: Cell
    /** Every `el-grid#selectionChanged` dispatched so far, in order. */
    var events: seq<SelectionEvent>

    ghost predicate Valid()
      reads this
    {
      && cols == ColumnCount(config, criteria, rows)
      && checked.Length == |rows|
      && tabindex.Length0 == |rows| && tabindex.Length1 == cols + 1
      && forall e :: e in events ==> e.dataIndex < |rows|
    }

    /** Every cell has tabindex -1, as rendered. */
    ghost predicate Unreachable()
      reads this, tabindex
    {
      forall i, j :: 0 <= i < tabindex.Length0 && 0 <= j < tabindex.Length1 ==> tabindex[i, j] == -1
    }

    /** The roving-tabindex invariant: the cursor is a cell of the grid, it
        has tabindex 0 and every other cell -1. */
    ghost predicate Roving()
      reads this, tabindex
    {
      && cursor.0 < tabindex.Length0 && cursor.1 < tabindex.Length1
      && forall i, j :: 0 <= i < tabindex.Length0 && 0 <= j < tabindex.Length1 ==>
           tabindex[i, j] == if (i, j) == cursor then 0 else -1
    }

    /** The cells reachable by Tab (tabindex 0). */
    ghost function ReachableCells(): set<Cell>
      reads this, tabindex
    {
      set i: nat, j: nat | i < tabindex.Length0 && j < tabindex.Length1 && tabindex[i, j] == 0 :: (i, j)
    }

    /** Under the invariant exactly one cell, the cursor, is reachable. */
    lemma ExactlyOneReachable()
      requires Roving()
      ensures ReachableCells() == {cursor}
    {
    }

    /** The grid as first rendered: cursor (0, 0), nothing checked, nothing
        reachable, nothing dispatched. */
    constructor (rows: seq<Row>, config: seq<Column>, criteria: Criteria)
      ensures this.rows == rows && this.config == config && this.criteria == criteria
      ensures Valid() && Unreachable()
      ensures fresh(checked) && fresh(tabindex)
      ensures cursor == (0, 0) && events == []
      ensures forall i :: 0 <= i < checked.Length ==> !checked[i]
    {
      this.rows := rows;
      this.config := config;
      this.criteria := criteria;
      var n := ColumnCount(config, criteria, rows);
      cols := n;
      checked := new bool[|rows|](_ => false);
      tabindex := new int[|rows|, n + 1]((_, _) => -1);
      cursor := (0, 0);
      events := [];
    }

    /** `firstUpdated`: the cursor goes to (0, 0), or one step right when
        that checkbox is disabled, and that cell alone becomes reachable. */
    method FirstUpdated()
      requires Valid() && Unreachable() && |rows| > 0
      requires cols >= 1 || !IsSelectable(criteria, rows[0])
      modifies this`cursor, tabindex
      ensures Valid() && Roving()
      ensures cursor == InitialCell(criteria, rows)
      ensures !CellDisabled(criteria, rows, cursor)
    {
      cursor := (0, 0);
      if CellDisabled(criteria, rows, cursor) {
        cursor := (cursor.0, cursor.1 + 1);
      }
      tabindex[cursor.0, cursor.1] := 0;
    }

    /** `_onKeyUp`: an arrow key revokes the current cell's reachability,
        moves the cursor by the clamped step, steps right once more if the
        cell reached is disabled, and makes that cell reachable; any other
        key changes nothing. The Right arrow stops at the last rendered
        column (the original's bound, `config.length`, is that column
        whenever a configuration is given). The cell reached must exist,
        as it does whenever a data column is rendered. */
    method OnKeyUp(key: string)
      requires Valid() && Roving()
      requires InGrid(|rows|, cols, Navigate(criteria, rows, cols, cursor, key))
      modifies this`cursor, tabindex
      ensures Valid() && Roving()
      ensures cursor == Navigate(criteria, rows, cols, old(cursor), key)
      ensures !IsArrow(key) ==> unchanged(tabindex)
    {
      var delta := Delta(key, cursor, |rows|, cols);
      if delta.None? {
        return;
      }
      var last := cursor;
      tabindex[last.0, last.1] := -1;
      cursor := (cursor.0 + delta.value.0, cursor.1 + delta.value.1);
      if CellDisabled(criteria, rows, cursor) {
        cursor := (cursor.0, cursor.1 + 1);
      }
      tabindex[cursor.0, cursor.1] := 0;
    }

    /** `_checkboxChanged`: the change of the row checkbox at position
        `source` is re-dispatched as one grid event carrying that
        checkbox's `data-index`, which is its row position; the checkbox's
        own notification stops here and is not logged. */
    method CheckboxChanged(source: nat, detail: CheckboxDetail)
      requires Valid() && source < |rows|
      modifies this`events
      ensures Valid()
      ensures events == old(events) + [SelectionEvent(detail.checked, source)]
    {
      var view := RenderRow(criteria, ProcessConfig(config, criteria, rows).keys, rows[source], source);
      var dataIndex := view.checkbox.dataIndex;
      events := events + [SelectionEvent(detail.checked, dataIndex)];
    }

    /** A click on an enabled row checkbox: the checkbox flips its `checked`
        attribute and notifies, and the grid re-dispatches. */
    method ClickCheckbox(r: nat)
      requires Valid() && r < |rows| && !IsSelectable(criteria, rows[r])
      modifies checked, this`events
      ensures Valid()
      ensures checked[..] == old(checked[..])[r := !old(checked[r])]
      ensures events == old(events) + [SelectionEvent(checked[r], r)]
    {
      checked[r] := !checked[r];
      CheckboxChanged(r, CheckboxDetail(checked[r], false));
    }

    /** `selectAllItems`: every enabled checkbox ends checked; one checked
        event is dispatched per enabled checkbox that was not checked, in
        row order; disabled and already checked ones are left alone. */
    method SelectAllItems()
      requires Valid()
      modifies checked, this`events
      ensures Valid()
      ensures forall i :: 0 <= i < checked.Length
                          ==> checked[i] == (old(checked[i]) || !IsSelectable(criteria, rows[i]))
      ensures events == old(events) + AsEvents(true, SelectAllTargets(criteria, rows, old(checked[..])))
    {
      ghost var before := checked[..];
      ghost var enabled := EnabledMask(criteria, rows);
      ghost var pending := AndNot(enabled, before);
      var i := 0;
      while i < checked.Length
        invariant 0 <= i <= checked.Length
        invariant forall k :: 0 <= k < checked.Length ==> checked[k] == (before[k] || (k < i && enabled[k]))
        invariant events == old(events) + AsEvents(true, Indices(pending[..i]))
        invariant forall e :: e in events ==> e.dataIndex < |rows|
      {
        EventsSnoc(true, pending, i);
        assert pending[i] == (!IsSelectable(criteria, rows[i]) && !checked[i]);
        if !IsSelectable(criteria, rows[i]) && !checked[i] {
          checked[i] := true;
          events := events + [SelectionEvent(true, i)];
        }
        i := i + 1;
      }
      assert pending[..i] == pending;
    }

    /** `unselectAllItems`: every enabled checkbox ends unchecked and one
        unchecked event is dispatched per enabled row, in row order,
        whatever its state was; disabled ones are left alone. */
    method UnselectAllItems()
      requires Valid()
      modifies checked, this`events
      ensures Valid()
      ensures forall i :: 0 <= i < checked.Length
                          ==> checked[i] == (old(checked[i]) && IsSelectable(criteria, rows[i]))
      ensures events == old(events) + AsEvents(false, UnselectAllTargets(criteria, rows))
    {
      ghost var before := checked[..];
      ghost var enabled := EnabledMask(criteria, rows);
      var i := 0;
      while i < checked.Length
        invariant 0 <= i <= checked.Length
        invariant forall k :: 0 <= k < checked.Length ==> checked[k] == (before[k] && (k >= i || !enabled[k]))
        invariant events == old(events) + AsEvents(false, Indices(enabled[..i]))
        invariant forall e :: e in events ==> e.dataIndex < |rows|
      {
        EventsSnoc(false, enabled, i);
        if !IsSelectable(criteria, rows[i]) {
          checked[i] := false;
          events := events + [SelectionEvent(false, i)];
        }
        i := i + 1;
      }
      assert enabled[..i] == enabled;
    }
  }
}
