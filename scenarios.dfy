/** The two-row example: one row whose status is "available" and one whose
    status is "locked", with criteria `{key: "status", values: ["locked"]}`
    and a configuration showing both fields. */
module Scenarios {
  import opened GridData
  import opened Masks
  import opened Columns
  import opened Eligibility
  import opened Navigation
  import opened Aggregation
  import opened Grid

  const Rows: seq<Row> := [[Field("name", Str("a")), Field("status", Str("available"))],
                           [Field("name", Str("b")), Field("status", Str("locked"))]]
  const Locked: Criteria := Criteria("status", [Str("locked")])
  const Config: seq<Column> := [Column("name", "Name"), Column("status", "Status")]

  /** `_isSelectable` holds of the available row and not of the locked one,
      so the available row's checkbox is the disabled one, and select-all
      reports only the locked row. */
  lemma SelectAllReportsLockedRow()
    ensures IsSelectable(Locked, Rows[0]) && !IsSelectable(Locked, Rows[1])
    ensures SelectAllTargets(Locked, Rows, [false, false]) == [1]
    ensures SelectableCount(Locked, Rows) == 1
  {
    assert Get(Rows[0], "status") == Str("available");
    assert Get(Rows[1], "status") == Str("locked");
    var m := AndNot(EnabledMask(Locked, Rows), [false, false]);
    assert m == [false, true];
    assert m[..1] == [false] && m[..1][..0] == [];
    assert Indices(m[..1]) == [];
  }

  /** The cursor starts right of the disabled first checkbox; Down, Down
      (a no-op on the last row), Left and Up bring it back there after the
      single skip past that checkbox. */
  lemma KeyboardWalk()
    ensures InitialCell(Locked, Rows) == (0, 1)
    ensures Navigate(Locked, Rows, |Config|, (0, 1), ArrowDown) == (1, 1)
    ensures Navigate(Locked, Rows, |Config|, (1, 1), ArrowDown) == (1, 1)
    ensures Navigate(Locked, Rows, |Config|, (1, 1), ArrowLeft) == (1, 0)
    ensures Navigate(Locked, Rows, |Config|, (1, 0), ArrowUp) == (0, 1)
  {
    assert Get(Rows[0], "status") == Str("available");
    assert Get(Rows[1], "status") == Str("locked");
  }
}
