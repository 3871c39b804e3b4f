# Grid state engine of React-Spreadsheet-Component, in Dafny

This project models the logic inside the component's table and cell code.
- **The table's state.** The table owns a matrix of cell values (`data.rows`), the selected cell, the last blurred cell and an `editing` flag.
- **The table's handlers.**
  - The key-release handlers move the selection one cell, enter edit mode or empty the selected cell.
  - `extendTable` grows the grid by one row downward or one column to the right.
  - Value changes write exactly one cell.
  - The `cellBlurred` subscription leaves edit mode.
- **The cell.** The pure rules decide what a cell displays, whether it is a header, which label a header shows, whether that label is clickable and whether the edit input is present. The cell also keeps an edit buffer (`changedValue`), commits it and announces its blur.
- **Notifications.** Every notification the table and its cells publish (`cellSelected`, `cellValueChanged`, `dataChanged`, `cellBlurred`, `headCellClicked`) is appended to an ordered log (`Bus.Dispatcher`), so event order is part of each contract.

Layout:
- `grid.dfy` (`Grid`): cell values, coordinates, the configuration, and the matrix operations. It holds the loops that build the blank grid, build a new row and append a column.
- `bus.dfy` (`Bus`): the events and the append-only dispatcher log.
- `cell_rules.dfy` (`CellRules`): the pure display and header rules of a cell.
- `navigation.dfy` (`Navigation`): `navigateTable`'s DOM walk, restated on coordinates. The walk goes to the neighbour row ±1 or column ±1, then to the `span` found there: a data cell's span, a clickable header's span, or nothing.
- `table_spec.dfy` (`TableSpec`): each table handler as a function from the old state to the new state plus the events it publishes, with the lemmas about them.
- `table.dfy` (`Table`): the class `TableComponent`. It updates its fields step by step as the source does. Each method is proved equal to its `TableSpec` function.
- `cell.dfy` (`Cell`): the class `CellComponent`. It holds the edit buffer and calls into the table the way the cell's callbacks do. It also contains two worked examples: edit a cell and blur it; blur a cell and press delete.

`componentDidUpdate` runs after every re-render, including the one that the cell's own `setState` in `handleChange` causes. `Cell.CellComponent.HandleInputChange` models that change event: while the cell is selected and editing, every change that makes the input differ from the stored value is committed at once. Each change event that alters the text is written at once, with its own `cellValueChanged` and `dataChanged`, and the blur writes the input's text once more. A browser sends one change event per keystroke, so typing "42" key by key writes "4", then "42", then "42" again on blur. `Cell.EditAndBlurExample` enters "42" in a single change event, as a paste does, and so shows two writes: one for the change and one for the blur.

Values are `Text(s)` or `EmptyArray`.
- `EmptyArray` is the `[]` that `extendTable('right')` pushes into each row (src/table.js:208).
- The model keeps that quirk. It does not replace `[]` with `''`.
- In JavaScript `[]` is truthy, so a cell of an added column is not given the empty-value symbol; it keeps the `[]` entry, which React renders as nothing, so the cell appears blank even when a symbol is configured (`CellRules.AddedColumnEntryShownRaw`).

Behaviours of the code that a reader might not expect, which the model keeps:
- **Growth does not move the selection.** After growing the grid, `navigateTable` stops. The selection is not moved into the new row or column. From (1, 0) of a two-row grid, the first press down grows the grid and the second press moves (`TableSpec.GrowDownExample`).
- **Navigation without a selection.** With nothing selected, a navigation key still reaches `extendTable`. It can grow the grid.
- **Selecting does not reset `editing`.**
- **Double click.** A double click enters edit mode unconditionally. As a result, "editing implies a selection" is kept by every handler except that one (`TableSpec.DoubleClickWithoutSelection`).
- **Blur.** A blur commits the input's value even when it is unchanged. Only the update commit (`componentDidUpdate`) compares the buffer with the value.
- **Empty grid.** On an empty grid, growing downward reads `rows[0].length` and raises a `TypeError`. The model returns `Status.TypeError` and leaves the state unchanged.

Assumptions:
- `Helpers.equalCells` is taken to be structural equality of (row, column), false when either side is null. That file is not part of this model.
- `Helpers.countWithLetters` is kept uninterpreted. The label `ColumnLetters(i)` stands for its result on column `i`.

## Model

| member | source | states |
|---|---|---|
| Grid.Blanks | src/table.js:196-200 | a new row has the requested width and every entry is `''` |
| Grid.BlankMatrix | src/table.js:16-24 | the default grid has `rows` rows, each `columns` wide, all `''`, so it is rectangular |
| Grid.GrowDown | src/table.js:195-203 | one row is appended, as wide as row 0 and all `''`; the existing rows are kept as a prefix; a rectangular grid stays rectangular |
| Grid.GrowRight | src/table.js:206-211 | every row gains exactly one entry, `[]`, at its end, and keeps its old entries; a rectangular grid stays rectangular and one wider |
| Grid.Updated | src/table.js:237-241 | the written cell holds the new value; every other cell and every row length is unchanged |
| Grid.UpdatedWithSameValue | src/table.js:241 | writing the value a cell already holds leaves the grid equal to what it was |
| Grid.NewBlankRow | src/table.js:196-200 | the loop builds exactly the blank row of the given width |
| Grid.NewBlankMatrix | src/table.js:19-24 | the nested loops build exactly the blank `rows` x `columns` grid |
| Grid.AppendColumnEntries | src/table.js:207-209 | the loop pushes `[]` onto every row, giving exactly the grown grid |
| CellRules.EffectiveConfig | src/cell.js:29 | a missing config is replaced by one whose empty-value symbol is `''` and whose header flags are all off |
| CellRules.DisplayValue | src/cell.js:30 | the empty-value symbol is shown iff the value is falsy (only `''`); otherwise the value itself is shown |
| CellRules.HeaderLabel | src/cell.js:149-153 | with letter/number heads, column 0 shows the row index and, failing that, row 0 shows the column letters; in every other case the ordinary display value is shown |
| CellRules.RenderHeader | src/cell.js:132-175 | a header is produced iff (head row on and row 0) or (head column on and column 0); its span is clickable iff (row 0 with `isHeadRowString`) or (column 0 with `isHeadColumnString`) |
| CellRules.Render | src/cell.js:25-61 | a header cell renders as its header; otherwise the data cell shows the display value, and the edit input, seeded with the value, is present iff the cell is not a header and is selected and editing |
| CellRules.MissingConfig | src/cell.js:29-30 | without a config no cell is a header and an empty cell shows `''` |
| CellRules.AddedColumnEntryShownRaw | src/cell.js:30 | a `[]` entry is passed through as stored (React renders it as nothing), never as the empty-value symbol, while `''` is replaced by the symbol |
| CellRules.CornerLabel | src/cell.js:149-153 | at (0, 0) with letter/number heads the column-0 rule wins and the label is row index 0 |
| Navigation.Neighbour | src/table.js:169-177 | the neighbour is one row up or down or one column left or right; there is none above row 0 or left of column 0 |
| Navigation.FindTarget | src/table.js:161-179 | the target is a data cell's span exactly when the neighbour exists, is in the grid and is not a header; a clickable header gives its span; no selection, no neighbour, outside the grid or a plain header gives nothing |
| Navigation.HeadersOnlyUpOrLeft | src/table.js:169-177 | from a data cell only moving up or left can reach a header |
| TableSpec.Initial | src/table.js:13-34 | with no supplied rows the grid is `config.rows` x `config.columns` of `''`; supplied rows are used as given; nothing is selected or blurred and editing is off |
| TableSpec.SelectCell | src/table.js:221-227 | publishes `cellSelected(c)` and selects `c`; data, `editing` and `lastBlurred` are unchanged |
| TableSpec.ChangeCellValue | src/table.js:234-247 | publishes `cellValueChanged(c, v)`, writes `v` at `c` and changes no other cell, then publishes `dataChanged` with the written grid; selection, editing and last blur are unchanged |
| TableSpec.Extend | src/table.js:190-214 | grows down only with `canAddRow` and right only with `canAddColumn`; any other direction or flag leaves the data unchanged; the selection never moves and nothing is published; an empty grid growing down raises `TypeError` and leaves the whole state unchanged; existing data is kept |
| TableSpec.Navigate | src/table.js:153-184 | a no-op while editing without override; otherwise editing and last blur never change; when the selection changes, it moves to the neighbour in that direction and `cellSelected` is published; when the data changes, the direction is down or right and the selection stays; the grid only grows |
| TableSpec.BeginEdit | src/table.js:133-137 | editing is on afterwards iff it was on or a cell is selected; nothing else changes |
| TableSpec.RemoveSelected | src/table.js:140-144 | the selected cell is set to `''` through the value-change path iff a cell is selected and it is not the last blurred one; otherwise nothing changes |
| TableSpec.Blur | src/table.js:42-47 | editing ends and the blurred cell becomes `lastBlurred`; data and selection are unchanged |
| TableSpec.DoubleClick | src/table.js:252-256 | editing starts, with no check; nothing else changes |
| TableSpec.KeyUp | src/table.js:90-145 | every key handler keeps the grid rectangular, the selection on an in-range data cell, and the grid from shrinking; while editing, every key except tab and remove is a no-op; tab navigates right with the override |
| TableSpec.Run | src/table.js:90-145 | any sequence of key releases keeps the state valid, never shrinks the grid, and keeps "editing implies a selection" when it held at the start |
| TableSpec.NavigateSelectsNeighbour | src/table.js:169-181 | navigating to an in-range data neighbour selects exactly that neighbour, publishes `cellSelected`, and changes nothing else |
| TableSpec.NavigateOffTheGrid | src/table.js:161-183 | with no selection or no in-range neighbour, navigation is exactly `extendTable` and the selection stays |
| TableSpec.NavigateOntoHeader | src/table.js:169-183 | navigating onto a header leaves the state unchanged; a clickable header publishes only `headCellClicked` |
| TableSpec.RightAtLastColumnFixed | src/table.js:206-213 | with `canAddColumn` off, right from the last column is a no-op |
| TableSpec.RightAtLastColumnGrows | src/table.js:206-211 | with `canAddColumn` on, right from the last column appends `[]` to every row, keeps the selection and publishes nothing |
| TableSpec.RightWithinRow | src/table.js:175-181 | right from a cell that is not the last of its row selects the next cell of that row and publishes `cellSelected` for it |
| TableSpec.RightTwiceFromLastColumn | src/table.js:175-183 | with `canAddColumn` on, two right presses from the last column add one column and move the selection into it |
| TableSpec.RightPairThenRun | src/table.js:175-211 | 2k right presses from the last column are two presses that reach a valid state one column wider, selected in its new last column, followed by 2(k-1) presses from there |
| TableSpec.RightPressesFromLastColumn | src/table.js:153-213 | 2k right presses from the last column add k columns and move the selection k columns right, with the row count unchanged |
| TableSpec.BeginEditIdempotent | src/table.js:133-137 | entering edit mode twice equals entering it once |
| TableSpec.DoubleClickWithoutSelection | src/table.js:252-256 | a double click with nothing selected breaks "editing implies a selection" |
| TableSpec.RemoveAfterBlurKeepsCell | src/table.js:140-144 | a delete key right after the selected cell's blur changes nothing |
| TableSpec.RemoveAfterSelectEmptiesCell | src/table.js:140-144 | a delete key after selecting a cell that was not the last blurred empties exactly that cell |
| TableSpec.GrowDownExample | src/table.js:179-204 | in a 2 x 2 grid that may grow down, from (0,0): down selects (1,0); down grows to 3 rows and the selection stays at (1,0); down selects (2,0) |
| Table.TableComponent.constructor | src/table.js:13-34 | the fields start as `TableSpec.Initial` says |
| Table.TableComponent.HandleSelectCell | src/table.js:221-227 | state and log change as `TableSpec.SelectCell` says |
| Table.TableComponent.HandleCellValueChange | src/table.js:234-247 | state and log change as `TableSpec.ChangeCellValue` says, in the order publish, write, publish |
| Table.TableComponent.HandleDoubleClickOnCell | src/table.js:252-256 | state changes as `TableSpec.DoubleClick` says |
| Table.TableComponent.OnCellBlurred | src/table.js:42-47 | state changes as `TableSpec.Blur` says |
| Table.TableComponent.ExtendTable | src/table.js:190-214 | state and status follow `TableSpec.Extend`, building the new row and the new column with loops |
| Table.TableComponent.NavigateTable | src/table.js:153-184 | state, log and status follow `TableSpec.Navigate` |
| Table.TableComponent.HandleKeyUp | src/table.js:93-144 | state, log and status follow `TableSpec.KeyUp` for each key topic |
| Bus.Dispatcher.Publish | src/cell.js:115 | publishing appends exactly the one event at the end of the log and leaves the earlier events as they were |
| Cell.CellComponent.constructor | src/cell.js:15-20 | `changedValue` starts as the value and `editing` as the editing property |
| Cell.CellComponent.HandleChange | src/cell.js:122-126 | only `changedValue` changes; the table is not touched |
| Cell.CellComponent.HandleInputChange | src/cell.js:122-126 | the buffer becomes the input's text; if the cell is selected and editing and the text differs from the value, the table writes it and publishes `cellValueChanged` and `dataChanged` at once; otherwise the table and the log are unchanged |
| Cell.CellComponent.ComponentDidUpdate | src/cell.js:74-76 | a value change is requested iff the cell was selected and editing before, and the buffer differs from the value; otherwise the table and the log are unchanged |
| Cell.CellComponent.Rerender | src/cell.js:68-77 | new properties, then the commit rule applied against the previous properties; the buffer is kept |
| Cell.CellComponent.HandleBlur | src/cell.js:110-116 | the input value is committed for this cell, then `cellBlurred` is published and heard by the table; the log is `cellValueChanged`, `dataChanged`, `cellBlurred` in that order |
| Cell.CellComponent.HandleClick | src/cell.js:83-86 | clicking a data cell selects it through the table |
| Cell.CellComponent.HandleDoubleClick | src/cell.js:101-104 | a double click goes to the table's double-click handler |
| Cell.CellComponent.HandleHeadClick | src/cell.js:92-95 | a header click only publishes `headCellClicked` |

## Left out

- Rendering: JSX output, class-name strings, `ref` names and the table's sanity check that logs an error (src/table.js:54-85). These are presentation only.
- DOM and jQuery traversal in `navigateTable`. It is replaced by coordinate arithmetic plus the header test. This assumes each row renders its cells in column order, one element per cell.
- `selectedElement`. It is always set together with `selected`, so it is not kept apart.
- The `originCell` argument of `navigateTable`. Every caller passes none.
- The `tab_keydown` and `remove_keydown` handlers (src/table.js:110-130). They only suppress browser defaults on the key event and change no grid state.
- Input focus in `componentDidUpdate` (src/cell.js:69-72).
- The internals of the dispatcher and the keyboard binding. Publishing is an append to the log. Delivery of `cellBlurred` to the table's subscription is a direct call.
- The `spreadsheetId` carried by `cellBlurred` and `headCellClicked`. The model has one table, so it drops the id.
- The DOM element that `headCellClicked` carries (src/cell.js:93-94). The model's `HeadCellClicked` carries the header's coordinate (`uid`) in its place.
- The row component's `handleCellBlur` callback. The row component is not part of this model.
- `Helpers.countWithLetters`. It is not part of this model and is kept as the symbolic label `ColumnLetters(i)`.
- Non-string values in caller-supplied rows, and non-rectangular supplied rows. The constructor requires supplied rows to be rectangular.
- React's asynchronous `setState` batching. Each handler runs to completion.
- Caller-supplied `initialData.rows`. The source keeps the caller's own array and then pushes rows, pushes column entries and writes cells into it in place (src/table.js:202, 208, 241), so the caller sees every change. The model copies the rows by value and does not capture that aliasing.
- The `dataChanged` event carries a snapshot of the grid. The source passes the live `data` object, which later writes keep changing.
- Table.TableComponent.HandleCellValueChange: requires an in-range cell, because every caller passes a rendered cell or the selection. An out-of-range write, which JavaScript would answer with a `TypeError` or a sparse row, is not modelled.
