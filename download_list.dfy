/** The download list `el-download-list`: it owns a grid, keeps the list of
    selected rows and its length, drives the grid's bulk selection from its
    select-all checkbox, and guards the download action. */
module DownloadList {
  import opened GridData
  import opened Masks
  import opened Eligibility
  import opened Aggregation
  import opened Grid

  /** The decimal digit character for `d`. */
  function Digit(d: nat): char
    requires d < 10
  {
    ('0' as int + d) as char
  }

  /** The decimal numeral of `n`, as a template literal prints it. */
  function NatToString(n: nat): string
    decreases n
  {
    if n < 10 then [Digit(n)] else NatToString(n / 10) + [Digit(n % 10)]
  }

  /** The number a numeral of decimal digits denotes. */
  function ParseDecimal(s: string): nat
  {
    if |s| == 0 then 0
    else
      var c := s[|s| - 1];
      ParseDecimal(s[..|s| - 1]) * 10 + (if '0' <= c <= '9' then c as int - '0' as int else 0)
  }

  /** Printing a count and reading it back gives the count. */
  lemma {:induction false} ParsePrinted(n: nat)
    ensures ParseDecimal(NatToString(n)) == n
    decreases n
  {
    if n >= 10 {
      ParsePrinted(n / 10);
      var s := NatToString(n);
      assert s[..|s| - 1] == NatToString(n / 10);
    }
  }

  /** `_getSelectedLabel`. */
  function SelectedLabel(numSelected: nat): (text: string)
    ensures text == "None Selected" <==> numSelected == 0
  {
    if numSelected == 0 then "None Selected"
    else
      var text := "Selected " + NatToString(numSelected);
      assert text[0] == 'S';
      text
  }

  /** Different counts give different labels. */
  lemma SelectedLabelInjective(a: nat, b: nat)
    requires SelectedLabel(a) == SelectedLabel(b)
    ensures a == b
  {
    if a != 0 && b != 0 {
      var prefix := "Selected ";
      assert NatToString(a) == SelectedLabel(a)[|prefix|..];
      assert NatToString(b) == SelectedLabel(b)[|prefix|..];
      ParsePrinted(a);
      ParsePrinted(b);
    }
  }

  /** State of the select-all checkbox as bound in `render`. */
  datatype SelectAllView = SelectAllView(text: string, checked: bool, indeterminate: bool)

  /** Checked when every selectable row is selected, indeterminate when
      some but not all are; never both. */
  function SelectAllBox(numSelected: nat, selectableCount: nat): (b: SelectAllView)
    ensures !(b.checked && b.indeterminate)
  {
    SelectAllView(SelectedLabel(numSelected), numSelected == selectableCount,
                  numSelected > 0 && numSelected < selectableCount)
  }

  /** Result of `_downloadClicked`: the empty-selection report, or the rows to download. */
  datatype DownloadOutcome = NoItemsSelected | Downloading(items: seq<nat>)

  /** The list holds each checked row of the grid whose checkbox is enabled,
      once, and nothing else. */
  ghost predicate InSync(criteria: Criteria, data: seq<Row>, checked: seq<bool>, selected: seq<nat>)
  {
    |checked| == |data|
    && multiset(selected) == multiset(Indices(And(EnabledMask(criteria, data), checked)))
  }

  /** Feeding the events of `selectAllItems` to the list keeps it in sync
      and leaves it as long as the selectable count. */
  lemma SelectAllKeepsSync(criteria: Criteria, data: seq<Row>, before: seq<bool>, after: seq<bool>, selected: seq<nat>)
    requires InSync(criteria, data, before, selected) && |after| == |data|
    requires forall i :: 0 <= i < |data| ==> after[i] == (before[i] || !IsSelectable(criteria, data[i]))
    ensures var s := ApplyAll(selected, AsEvents(true, SelectAllTargets(criteria, data, before)));
            InSync(criteria, data, after, s) && |s| == SelectableCount(criteria, data)
  {
    var en := EnabledMask(criteria, data);
    var targets := SelectAllTargets(criteria, data, before);
    ApplyAllChecked(selected, targets);
    Partition(en, before);
    assert And(en, after) == en;
    SelectableCountIsEnabled(criteria, data);
    var s := selected + targets;
    assert |multiset(s)| == |multiset(Indices(en))|;
  }

  /** Feeding the events of `unselectAllItems` to a list in sync empties it
      and keeps it in sync. */
  lemma UnselectAllKeepsSync(criteria: Criteria, data: seq<Row>, before: seq<bool>, after: seq<bool>, selected: seq<nat>)
    requires InSync(criteria, data, before, selected) && |after| == |data|
    requires forall i :: 0 <= i < |data| ==> after[i] == (before[i] && IsSelectable(criteria, data[i]))
    ensures var s := ApplyAll(selected, AsEvents(false, UnselectAllTargets(criteria, data)));
            s == [] && InSync(criteria, data, after, s)
  {
    var en := EnabledMask(criteria, data);
    var targets := UnselectAllTargets(criteria, data);
    var s := ApplyAll(selected, AsEvents(false, targets));
    ApplyAllUnchecked(selected, targets);
    IndicesMembers(And(en, before));
    IndicesMembers(en);
    forall y | y in multiset(selected)
      ensures y in targets
    {
      assert y in Indices(And(en, before));
      assert y < |en| && en[y];
    }
    forall y
      ensures multiset(s)[y] == 0
    {
      if y !in targets {
        assert y !in multiset(selected);
      }
    }
    assert multiset(s) == multiset{};
    assert |s| == |multiset(s)|;
    NoneListed(And(en, after));
  }

  /** Clicking an enabled row checkbox and feeding its event to a list in
      sync keeps it in sync. */
  lemma ClickKeepsSync(criteria: Criteria, data: seq<Row>, before: seq<bool>, selected: seq<nat>, r: nat)
    requires InSync(criteria, data, before, selected)
    requires r < |data| && !IsSelectable(criteria, data[r])
    ensures var after := before[r := !before[r]];
            InSync(criteria, data, after, ApplyEvent(selected, SelectionEvent(after[r], r)))
  {
    var en := EnabledMask(criteria, data);
    var after := before[r := !before[r]];
    assert And(en, after) == And(en, before)[r := after[r]];
    IndicesUpdate(And(en, before), r, after[r]);
    IndicesMembers(And(en, before));
    RemoveCounts(selected, r);
  }

  /** Against a list in sync, the select-all checkbox is checked exactly
      when every enabled row is checked, and indeterminate exactly when some
      enabled row is checked and some is not. */
  lemma SelectAllBoxReflectsRows(criteria: Criteria, data: seq<Row>, checked: seq<bool>, selected: seq<nat>)
    requires InSync(criteria, data, checked, selected)
    ensures var b := SelectAllBox(|selected|, SelectableCount(criteria, data));
            && (b.checked <==> forall i :: 0 <= i < |data| && !IsSelectable(criteria, data[i]) ==> checked[i])
            && (b.indeterminate <==>
                  (exists i :: 0 <= i < |data| && !IsSelectable(criteria, data[i]) && checked[i])
                  && (exists i :: 0 <= i < |data| && !IsSelectable(criteria, data[i]) && !checked[i]))
  {
    var en := EnabledMask(criteria, data);
    var sel := Indices(And(en, checked));
    assert |selected| == |sel| by {
      assert |multiset(selected)| == |multiset(sel)|;
    }
    SelectableCountIsEnabled(criteria, data);
    AllCovered(en, checked);
    NarrowerListsFewer(en, checked);
    SomeListed(And(en, checked));
  }

  class ElDownloadList {
    const data: seq<Row>
    const config: seq<Column>
    const criteria: Criteria
    /** The `el-grid` the list renders with its own data, config and criteria. */
    const grid: ElGrid
    /** `_selectedItems`, rows named by position. */
    var selectedItems: seq<nat>
    /** `_numSelected`. */
    var numSelected: nat

    ghost predicate Valid()
      reads this, grid
    {
      && grid.Valid() && grid.rows == data && grid.config == config && grid.criteria == criteria
      && numSelected == |selectedItems|
    }

    /** The list agrees with the grid's checkboxes. */
    ghost predicate Synced()
      reads this, grid, grid.checked
    {
      InSync(criteria, data, grid.checked[..], selectedItems)
    }

    constructor (data: seq<Row>, config: seq<Column>, criteria: Criteria)
      ensures this.data == data && this.config == config && this.criteria == criteria
      ensures Valid() && Synced()
      ensures numSelected == 0 && selectedItems == []
      ensures fresh(grid) && fresh(grid.checked) && fresh(grid.tabindex)
      ensures grid.cursor == (0, 0) && grid.events == [] && grid.Unreachable()
      ensures forall i :: 0 <= i < grid.checked.Length ==> !grid.checked[i]
    {
      this.data := data;
      this.config := config;
      this.criteria := criteria;
      grid := new ElGrid(data, config, criteria);
      numSelected := 0;
      selectedItems := [];
      new;
      NoneListed(And(EnabledMask(criteria, data), grid.checked[..]));
    }

    /** `_itemSelectedChanged`: a checked event appends its row, an
        unchecked one drops every occurrence of it; the count follows. */
    method ItemSelectedChanged(e: SelectionEvent)
      requires Valid() && e.dataIndex < |data|
      modifies this`selectedItems, this`numSelected
      ensures Valid()
      ensures selectedItems == ApplyEvent(old(selectedItems), e)
    {
      if e.checked {
        selectedItems := selectedItems + [e.dataIndex];
        numSelected := |selectedItems|;
      } else {
        selectedItems := Remove(selectedItems, e.dataIndex);
        numSelected := |selectedItems|;
      }
    }

    /** Synchronous delivery of dispatched grid events, in order. */
    method Deliver(es: seq<SelectionEvent>)
      requires Valid() && forall e :: e in es ==> e.dataIndex < |data|
      modifies this`selectedItems, this`numSelected
      ensures Valid()
      ensures selectedItems == ApplyAll(old(selectedItems), es)
    {
      var i := 0;
      while i < |es|
        invariant 0 <= i <= |es|
        invariant Valid()
        invariant ApplyAll(selectedItems, es[i..]) == ApplyAll(old(selectedItems), es)
      {
        assert es[i..][1..] == es[i + 1..];
        ItemSelectedChanged(es[i]);
        i := i + 1;
      }
    }

    /** `_selectAllChanged`: select all rows when the select-all checkbox
        became checked, unselect all otherwise; the grid's events reach the
        list, which then holds every selectable row, or none. */
    method SelectAllChanged(detail: CheckboxDetail)
      requires Valid()
      modifies this`selectedItems, this`numSelected, grid`events, grid.checked
      ensures Valid()
      ensures detail.checked ==>
                grid.events == old(grid.events) + AsEvents(true, SelectAllTargets(criteria, data, old(grid.checked[..])))
      ensures !detail.checked ==>
                grid.events == old(grid.events) + AsEvents(false, UnselectAllTargets(criteria, data))
      ensures detail.checked ==>
                forall i :: 0 <= i < grid.checked.Length ==>
                  grid.checked[i] == (old(grid.checked[i]) || !IsSelectable(criteria, data[i]))
      ensures !detail.checked ==>
                forall i :: 0 <= i < grid.checked.Length ==>
                  grid.checked[i] == (old(grid.checked[i]) && IsSelectable(criteria, data[i]))
      ensures selectedItems == ApplyAll(old(selectedItems), grid.events[|old(grid.events)|..])
      ensures old(Synced()) ==> Synced() && numSelected == if detail.checked then SelectableCount(criteria, data) else 0
    {
      ghost var before := grid.checked[..];
      var start := |grid.events|;
      if detail.checked {
        grid.SelectAllItems();
      } else {
        grid.UnselectAllItems();
      }
      var sent := grid.events[start..];
      Deliver(sent);
      if InSync(criteria, data, before, old(selectedItems)) {
        if detail.checked {
          SelectAllKeepsSync(criteria, data, before, grid.checked[..], old(selectedItems));
        } else {
          UnselectAllKeepsSync(criteria, data, before, grid.checked[..], old(selectedItems));
        }
      }
    }

    /** A click on an enabled row checkbox of the grid, carried through to the list. */
    method RowCheckboxClicked(r: nat)
      requires Valid() && r < |data| && !IsSelectable(criteria, data[r])
      modifies this`selectedItems, this`numSelected, grid`events, grid.checked
      ensures Valid()
      ensures grid.checked[..] == old(grid.checked[..])[r := !old(grid.checked[r])]
      ensures grid.events == old(grid.events) + [SelectionEvent(grid.checked[r], r)]
      ensures selectedItems == ApplyEvent(old(selectedItems), SelectionEvent(grid.checked[r], r))
      ensures old(Synced()) ==> Synced()
    {
      ghost var before := grid.checked[..];
      grid.ClickCheckbox(r);
      ItemSelectedChanged(grid.events[|grid.events| - 1]);
      if InSync(criteria, data, before, old(selectedItems)) {
        ClickKeepsSync(criteria, data, before, old(selectedItems), r);
      }
    }

    /** `_downloadClicked`: with nothing selected, only the report; otherwise
        the selected rows. */
    method DownloadClicked() returns (outcome: DownloadOutcome)
      requires Valid()
      ensures outcome == NoItemsSelected <==> numSelected == 0
      ensures outcome.Downloading? ==> outcome.items == selectedItems && |outcome.items| == numSelected
    {
      if numSelected == 0 {
        return NoItemsSelected;
      }
      outcome := Downloading(selectedItems);
    }
  }
}
