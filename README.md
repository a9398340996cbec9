# Selection grid and download list

A Dafny model of two Lit web components:

- `el-grid` shows rows of data. Each row starts with a checkbox, then has one cell per column. The grid resolves its columns from a configuration, or from the first row's field names when there is none. It disables each row's checkbox according to a selection rule. It moves a keyboard cursor over the cells with the roving-tabindex pattern. It reports each checkbox change as an `el-grid#selectionChanged` event `{checked, dataIndex}`, and it offers select-all and unselect-all.
- `el-download-list` owns such a grid. It keeps the list of selected rows and their count. It drives the grid's bulk selection from its own select-all checkbox, shows that checkbox as checked or indeterminate, and refuses to download an empty selection.

The model has these modules:

- `GridData`: rows, the column configuration, the selection criteria and the two event payloads.
- `Columns`: `_processConfig`, a fold over the configuration.
- `Eligibility`: `_isSelectable`, the pass-criteria test and `selectableCount`.
- `Navigation`: the cursor moves of `firstUpdated` and `_onKeyUp`, as functions of the cursor cell.
- `Render`: the attributes `render` puts on the table.
- `Aggregation`: the selected-items list, as a value.
- `Grid`: class `ElGrid`.
- `DownloadList`: class `ElDownloadList`.
- `Scenarios`: a two-row example.
- `Masks`: a helper that lists the positions where a boolean mask holds, in ascending order.

The grid's state lives in fields:

- `checked: array<bool>` holds each row checkbox's `checked` attribute.
- `tabindex: array2<int>` holds each cell's tabindex, indexed by (row, column).
- `cursor` is `_currentCell`.
- `events` logs every grid event in dispatch order.

A DOM query by `grid-row`/`grid-col` becomes array indexing. `Render.CoordinatesMatch` shows that the element rendered at (r, c) carries exactly those coordinates, and that no other element carries them. Dispatching an event appends it to `events`. `ElDownloadList.Deliver` hands logged events to `_itemSelectedChanged` in order. The handler touches only the list's own fields, so its final state is the same as with the original's interleaved synchronous dispatch. Rows are named by their position. That position stands in for both the `data-index` attribute and the object identity that `filter(d => d !== data)` compares.

The disabled checkbox follows the code, not the method's name. `_isSelectable(row)` holds when the row's criteria field is not one of the criteria values, and its result is bound to `disabled` (components/el-grid.js:257). So the rows whose checkbox can be toggled are those whose field is one of the values. These are the same rows that get the `pass-criteria` flag and that `selectableCount` counts. The method's name suggests the opposite reading. On the two-row example, select-all reports row 1 (`Scenarios.SelectAllReportsLockedRow`).

The Right-arrow bound `config.length` is the last data column whenever a configuration is given, because column 0 is the checkbox column. The bound goes wrong only when the configuration is empty (see Findings).

The download list and the grid stay consistent. `ElDownloadList.Synced` states that the selected-items list holds each checked row whose checkbox is enabled, exactly once (as multisets). The constructor establishes it, and row clicks, select-all and unselect-all keep it. When it holds, the count equals the number of checked enabled rows. Under it, the select-all checkbox is checked exactly when every enabled row is checked.

## Model

| member | source | states |
|---|---|---|
| GridData.GetSpec | components/el-grid.js:203 | `row[key]` is the value of the first field with that name, or Undefined when the row has no such field |
| Columns.ProcessConfig | components/el-grid.js:121-137 | with an empty configuration: keys are the first row's field names, labels equal the keys, selection is null. Otherwise: keys and labels are the in-order projections of the configuration, both of its length, and selection is the last label whose key is the criteria key |
| Columns.LastMatchSpec | components/el-grid.js:131-134 | no label exactly when no entry has the key; otherwise the label of a matching entry after which no entry matches |
| Columns.ReduceProjects | components/el-grid.js:127-136 | the reduce appends the configuration's keys and labels to the accumulator in order, and the last matching label overrides the accumulated selection |
| Columns.ColumnCount | components/el-grid.js:261-267 | the number of rendered data columns equals `config.length` whenever there is data and a configuration |
| Eligibility.EnabledIffPasses | components/el-grid.js:201-205 | a row's checkbox is enabled (`_isSelectable` false) exactly when its field passes the `values.includes` test |
| Eligibility.SelectableCountIsEnabled | components/el-download-list.js:104 | `selectableCount` equals the number of rows whose checkbox the grid leaves enabled |
| Navigation.InitialCell | components/el-grid.js:139-148 | the first cursor is in row 0: column 1 if row 0's checkbox is disabled, column 0 otherwise; it is never a disabled cell |
| Navigation.Delta | components/el-grid.js:164-181 | no step exactly for a non-arrow key; a step never makes a coordinate negative and keeps an in-grid cell in the grid |
| Navigation.Navigate | components/el-grid.js:163-199 | a non-arrow key leaves the cursor unchanged; from a cell in the grid the cursor stays in the grid; after an arrow key it is never on a disabled cell |
| Navigation.NavigateIsClampedMove | components/el-grid.js:166-196 | an arrow key moves to the clamped neighbour (Up and Left stop at 0, Down at the last row, Right at the bound), then one column further right if that cell is disabled |
| Navigation.WalkStaysInGrid | components/el-grid.js:163-199 | from an enabled in-grid cell, any sequence of key presses keeps the cursor in the grid and off disabled cells |
| Navigation.RightArrowWithoutConfig | components/el-grid.js:173 | with an empty configuration and a one-field row: from (0,1) Right goes to column 2, outside the grid; from (0,0) Right does not move |
| Navigation.CorrectedRightArrow | components/el-grid.js:172-174 | with the rendered column count as the bound, any configuration keeps the cursor in the grid and off disabled cells, and Right reaches the next column when there is one; with a configuration, the result is the same as the code as written |
| Render.Render | components/el-grid.js:237-288 | the placeholder exactly when there is no data; otherwise one row per record with one cell per resolved key |
| Render.RenderRow | components/el-grid.js:248-270 | the checkbox has grid-row r, grid-col 0, data-index r and tabindex -1, and is disabled exactly when the row fails the `includes` test; key cell c has grid-row r, grid-col c+1, tabindex -1 and the row's value for that key, carries selection-criteria exactly when its key is the criteria key, and carries pass-criteria exactly when it is that column and the row passes the test |
| Render.CoordinatesMatch | components/el-grid.js:252-266 | the element at (r, c) is the checkbox (c = 0) or the key cell c-1, its grid-row/grid-col are (r, c), the checkbox's data-index is r, and every cell starts at tabindex -1; no other element of the table carries (r, c) |
| Render.DisabledMatchesView | components/el-grid.js:257 | a cell is disabled exactly when it is a checkbox whose row has `_isSelectable` |
| Render.PassFlagIffEnabled | components/el-grid.js:262-265 | when the criteria key is a column, a row's checkbox is enabled exactly when one of its cells carries pass-criteria |
| Aggregation.RemoveCounts | components/el-download-list.js:94 | filtering out a row removes all its occurrences and keeps every other item's count |
| Aggregation.RemoveAppend | components/el-download-list.js:94 | filtering distributes over concatenation, so the remaining items keep their order |
| Aggregation.UncheckedRemoves | components/el-download-list.js:93-95 | an unchecked event leaves no occurrence of its row and keeps every other row's count |
| Aggregation.ApplyAllChecked | components/el-download-list.js:87-92 | a run of checked events appends their rows in order |
| Aggregation.ApplyAllUnchecked | components/el-download-list.js:87-95 | a run of unchecked events drops every named row and keeps every other item |
| Grid.SelectAllTargetsSpec | components/el-grid.js:207-221 | select-all reports exactly the enabled, unchecked rows, in ascending order; with N enabled rows of which M are checked, it reports N - M |
| Grid.UnselectAllTargetsSpec | components/el-grid.js:223-235 | unselect-all reports exactly the enabled rows, in ascending order, as many as `selectableCount` |
| Grid.ElGrid.ExactlyOneReachable | components/el-grid.js:186-197 | under the roving invariant, the set of cells with tabindex 0 is exactly the cursor |
| Grid.ElGrid.constructor | components/el-grid.js:113-119 | cursor (0,0), no events, every checkbox unchecked, every cell tabindex -1 |
| Grid.ElGrid.FirstUpdated | components/el-grid.js:139-148 | the cursor becomes the initial cell, which is not disabled; that cell alone has tabindex 0 and every other cell keeps -1 |
| Grid.ElGrid.OnKeyUp | components/el-grid.js:163-199 | the cursor becomes `Navigate` of the old cursor; the roving invariant holds afterwards, even after a clamped no-op; a non-arrow key changes no tabindex |
| Grid.ElGrid.CheckboxChanged | components/el-grid.js:150-161 | exactly one event is appended; its dataIndex is the source checkbox's data-index, which equals its row position, and its checked flag is the checkbox's |
| Grid.ElGrid.ClickCheckbox | components/el-checkbox.js:84-98 | clicking an enabled row checkbox flips only that checkbox and appends one event with its new state and row |
| Grid.ElGrid.SelectAllItems | components/el-grid.js:207-221 | every enabled checkbox ends checked and the others are unchanged; the events appended are one checked event per select-all target, in order |
| Grid.ElGrid.UnselectAllItems | components/el-grid.js:223-235 | every enabled checkbox ends unchecked and the others are unchanged; one unchecked event is appended per enabled row, in order, whatever its prior state |
| DownloadList.ParsePrinted | components/el-download-list.js:100 | the count printed in the label reads back as the same count |
| DownloadList.SelectedLabel | components/el-download-list.js:99-101 | the label is "None Selected" exactly when the count is 0 |
| DownloadList.SelectedLabelInjective | components/el-download-list.js:99-101 | different counts give different labels |
| DownloadList.SelectAllBox | components/el-download-list.js:111-112 | the select-all checkbox is never both checked and indeterminate |
| DownloadList.SelectAllKeepsSync | components/el-download-list.js:79-97 | feeding select-all's events to a list in sync keeps it in sync, and its length becomes `selectableCount` |
| DownloadList.UnselectAllKeepsSync | components/el-download-list.js:79-97 | feeding unselect-all's events to a list in sync empties it and keeps it in sync |
| DownloadList.ClickKeepsSync | components/el-download-list.js:87-97 | a row checkbox click, fed to a list in sync, keeps it in sync |
| DownloadList.SelectAllBoxReflectsRows | components/el-download-list.js:104-112 | when in sync, the box is checked exactly when every enabled row is checked, and indeterminate exactly when some enabled row is checked and some is not |
| DownloadList.ElDownloadList.constructor | components/el-download-list.js:49-61 | count 0, empty list, a fresh grid with the same data, config and criteria, in its first-rendered state (cursor (0,0), no events, nothing checked, every cell at tabindex -1), and the list starts in sync |
| DownloadList.ElDownloadList.ItemSelectedChanged | components/el-download-list.js:87-97 | the list becomes `ApplyEvent` of the old list, and the count equals the list's length afterwards |
| DownloadList.ElDownloadList.Deliver | components/el-download-list.js:60 | events delivered in order leave the list equal to `ApplyAll` of the old list, and the count equals the length |
| DownloadList.ElDownloadList.SelectAllChanged | components/el-download-list.js:79-85 | a checked detail runs select-all: every enabled checkbox becomes checked, others unchanged, and select-all's events are dispatched; an unchecked one runs unselect-all: every enabled checkbox becomes unchecked and unselect-all's events are dispatched; the events reach the list in order; from a list in sync, the list stays in sync with count `selectableCount` or 0 |
| DownloadList.ElDownloadList.RowCheckboxClicked | components/el-grid.js:150-161 | a click on an enabled row checkbox flips only that checkbox, appends exactly one grid event with its new state and row, applies that event to the list, and keeps the list in sync |
| DownloadList.ElDownloadList.DownloadClicked | components/el-download-list.js:63-67 | with count 0 only the "no items" report; otherwise exactly the selected rows |
| Scenarios.SelectAllReportsLockedRow | components/el-grid.js:201-221 | in the two-row example, the available row's checkbox is the disabled one, select-all reports only row 1, and `selectableCount` is 1 |
| Scenarios.KeyboardWalk | components/el-grid.js:139-199 | in the two-row example, the cursor starts at (0,1); Down goes to (1,1); Down again is a no-op; Left goes to (1,0); Up skips the disabled (0,0) and lands on (0,1) |

## Left out

- Lit rendering, templates, `classMap`, CSS and every aria-label text. The model keeps the header labels with their selection-criteria flag, each cell's value, and the attributes `disabled`, `data-index`, `grid-row`/`grid-col`, `tabindex` and the two criteria flags.
- Render.Render: does not model the failure of a grid whose owner supplies no `configAria.table`. The grid's constructor sets `configAria` to `{}` (components/el-grid.js:115), and `render` reads `configAria.table['aria-label']` (components/el-grid.js:276), which throws before any cell exists. The model renders the table regardless. The download list always supplies that entry (components/el-download-list.js:53-57, 117).
- `focus()` and `blur()` in `_onKeyUp`, and event bubbling, composition and cancelation. Dispatch is modelled as appending to a log, and `stopPropagation` as the checkbox's own notification never entering that log.
- The text that `window.alert` shows in `_downloadClicked`. It is output; the model returns the empty-selection report or the selected rows.
- The internals of `el-checkbox` and `el-icon-button`. The checkbox is an event source with `{checked, indeterminate}` that reflects `checked`. `dev/el-app.js` and its demo data are not part of this model.
- An absent (`undefined`) configuration or selection criteria. The criteria are always present. An absent configuration is treated like an empty one, as `_processConfig`'s `?.length` does; `_onKeyUp` would throw on it.
- Object identity. Rows are positions, so a data array that holds the same object twice is not modelled. In the original, unchecking one copy would drop both from the list.
- Re-rendering with new `data` or `config` after the first render. These are fixed when a grid is built.
- The JavaScript ordering of integer-like keys (`Object.keys` lists them first) and the `SameValueZero` equality of `includes` (NaN, signed zero). Rows keep their fields in declaration order, and values compare structurally.
- Grid.ElGrid.OnKeyUp: uses the number of rendered data columns as the Right-arrow bound instead of `config.length` (see Findings). The two agree whenever a configuration is given; `Navigation.RightArrowWithoutConfig` models the code as written.
- DownloadList.ElDownloadList.ItemSelectedChanged: requires the event's row to exist. An out-of-range `dataIndex` would push `undefined` in the original, but the grid only dispatches row positions.
- Grid.ElGrid.FirstUpdated: requires data, and either a data column or an enabled first checkbox. Otherwise the original dereferences a missing table or cell.

## Findings

| source | as written | input that shows it | evidently intended | confidence | as-written member | corrected member |
|---|---|---|---|---|---|---|
| components/el-grid.js:173 | The Right arrow stops at `config.length`. With an empty configuration the table shows the first row's fields (lines 122-124), but the bound is 0. | `config = []`, `data = [{status: 'ready'}]`, criteria `{key: 'status', values: []}`: the cursor starts at (0,1) and Right moves it to (0,2), which does not exist. Line 187 has already reset the old cell's tabindex, and at line 193 `newCell` is null, so the handler throws and leaves no cell reachable. With `values: ['ready']`, the cursor starts at (0,0) and Right never moves it. | Stop at the number of rendered data columns. | medium, not executed | Navigation.RightArrowWithoutConfig | Navigation.CorrectedRightArrow |
