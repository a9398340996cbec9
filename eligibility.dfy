/** The row-eligibility rule. `_isSelectable` holds when the row's criteria
    field is NOT among the criteria values; its result is bound to the row
    checkbox's `disabled` attribute, so the rows whose checkbox can be
    toggled are exactly those whose field IS among the values. */
module Eligibility {
  import opened GridData
  import opened Masks

  /** `_isSelectable(row)`: the criteria field is not one of the values. */
  predicate IsSelectable(criteria: Criteria, row: Row)
  {
    Get(row, criteria.key) !in criteria.values
  }

  /** The membership test behind the `pass-criteria` flag and `selectableCount`. */
  predicate Passes(criteria: Criteria, row: Row)
  {
    Get(row, criteria.key) in criteria.values
  }

  /** Which rows have an enabled checkbox (`disabled` is `_isSelectable`). */
  function EnabledMask(criteria: Criteria, rows: seq<Row>): (m: seq<bool>)
    ensures |m| == |rows|
    ensures forall i :: 0 <= i < |rows| ==> (m[i] <==> !IsSelectable(criteria, rows[i]))
  {
    seq(|rows|, i requires 0 <= i < |rows| => !IsSelectable(criteria, rows[i]))
  }

  /** `data.filter(d => values.includes(d[key])).length`. */
  function SelectableCount(criteria: Criteria, rows: seq<Row>): nat
  {
    if |rows| == 0 then 0
    else SelectableCount(criteria, rows[..|rows| - 1]) + (if Passes(criteria, rows[|rows| - 1]) then 1 else 0)
  }

  /** A checkbox is enabled exactly when its row passes the criteria. */
  lemma EnabledIffPasses(criteria: Criteria, row: Row)
    ensures !IsSelectable(criteria, row) <==> Passes(criteria, row)
  {
  }

  /** The count the download list computes is the number of rows whose
      checkbox the grid leaves enabled. */
  lemma {:induction false} SelectableCountIsEnabled(criteria: Criteria, rows: seq<Row>)
    ensures SelectableCount(criteria, rows) == |Indices(EnabledMask(criteria, rows))|
  {
    if |rows| > 0 {
      var n := |rows| - 1;
      assert EnabledMask(criteria, rows)[..n] == EnabledMask(criteria, rows[..n]);
      SelectableCountIsEnabled(criteria, rows[..n]);
    }
  }
}
