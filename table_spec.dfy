/** The table's state and what each of its handlers does to it, as functions
    from the state before to the state after and the notifications published
    on the way. The class `Table.TableComponent` runs the same handlers step by
    step and is proved to agree with these functions. */
module TableSpec {
  import opened Grid
  import opened Bus
  import opened Navigation
  import CellRules

  /** `data.rows`, `selected`, `lastBlurred` and `editing`. `selectedElement`
      is always set together with `selected` and is not kept apart. */
  datatype State = State(rows: Matrix, selected: Option<Coord>, lastBlurred: Option<Coord>, editing: bool)

  /** Whether a handler ran to its end or raised a `TypeError`. */
  datatype Status = Completed | TypeError

  datatype Step = Step(after: State, published: seq<Event>, status: Status)

  /** The grid is rectangular and the selection, when there is one, is a data
      cell of it (only a data cell's click selects). */
  predicate Valid(config: Config, s: State)
  {
    Rectangular(s.rows) &&
    (s.selected.Some? ==> InRange(s.rows, s.selected.value) && !CellRules.IsHeader(config, s.selected.value))
  }

  /** Editing is only ever meant to happen on a selected cell. */
  predicate EditingHasSelection(s: State)
  {
    s.editing ==> s.selected.Some?
  }

  function NoChange(s: State): Step
  {
    Step(s, [], Completed)
  }

  /** `getInitialState`: the supplied rows, or `config.rows` rows of
      `config.columns` empty strings; nothing selected, nothing blurred, not editing. */
  function Initial(config: Config, initialRows: Option<Matrix>): (s: State)
    ensures initialRows.Some? ==> s.rows == initialRows.value
    ensures initialRows.None? ==> |s.rows| == config.rows
    ensures initialRows.None? ==> forall i :: 0 <= i < config.rows ==> |s.rows[i]| == config.columns
    ensures initialRows.None? ==>
      forall i, j :: 0 <= i < config.rows && 0 <= j < config.columns ==> s.rows[i][j] == Blank
    ensures s.selected.None? && s.lastBlurred.None? && !s.editing
    ensures initialRows.None? || Rectangular(initialRows.value) ==> Valid(config, s) && EditingHasSelection(s)
  {
    State(if initialRows.None? then BlankMatrix(config.rows, config.columns) else initialRows.value, None, None, false)
  }

  /** `handleSelectCell`: publishes `cellSelected`, then moves the selection;
      `editing` is left as it was. */
  function SelectCell(config: Config, s: State, c: Coord): (r: Step)
    ensures r.after.selected == Some(c) && r.published == [CellSelected(c)] && r.status == Completed
    ensures r.after.rows == s.rows && r.after.editing == s.editing && r.after.lastBlurred == s.lastBlurred
    ensures Valid(config, s) && InRange(s.rows, c) && !CellRules.IsHeader(config, c) ==> Valid(config, r.after)
    ensures EditingHasSelection(r.after)
  {
    Step(s.(selected := Some(c)), [CellSelected(c)], Completed)
  }

  /** `handleCellValueChange`: publishes `cellValueChanged`, writes exactly one
      cell, then publishes `dataChanged` with the written grid. */
  function ChangeCellValue(config: Config, s: State, c: Coord, v: Value): (r: Step)
    requires InRange(s.rows, c)
    ensures |r.after.rows| == |s.rows| && forall i :: 0 <= i < |s.rows| ==> |r.after.rows[i]| == |s.rows[i]|
    ensures r.after.rows[c.row][c.col] == v
    ensures forall i, j :: 0 <= i < |s.rows| && 0 <= j < |s.rows[i]| && (i, j) != (c.row, c.col) ==>
      r.after.rows[i][j] == s.rows[i][j]
    ensures r.after.selected == s.selected && r.after.editing == s.editing && r.after.lastBlurred == s.lastBlurred
    ensures r.published == [CellValueChanged(c, v), DataChanged(r.after.rows)] && r.status == Completed
    ensures Valid(config, s) ==> Valid(config, r.after)
    ensures EditingHasSelection(s) ==> EditingHasSelection(r.after)
  {
    Step(s.(rows := Updated(s.rows, c, v)), [CellValueChanged(c, v), DataChanged(Updated(s.rows, c, v))], Completed)
  }

  /** `extendTable`: a new row downward or a new column to the right when the
      config allows it. Growing downward reads `rows[0].length`, which raises
      a `TypeError` on an empty grid. */
  function Extend(config: Config, s: State, d: Direction): (r: Step)
    ensures r.published == []
    ensures r.after.selected == s.selected && r.after.editing == s.editing && r.after.lastBlurred == s.lastBlurred
    ensures r.status == TypeError <==> d == Down && config.canAddRow && |s.rows| == 0
    ensures r.status == TypeError ==> r.after == s
    ensures d == Down && config.canAddRow && |s.rows| > 0 ==> r.after.rows == GrowDown(s.rows)
    ensures d == Right && config.canAddColumn ==> r.after.rows == GrowRight(s.rows)
    ensures r.after.rows != s.rows ==> (d == Down && config.canAddRow) || (d == Right && config.canAddColumn)
    ensures Extends(s.rows, r.after.rows)
    ensures Valid(config, s) ==> Valid(config, r.after)
    ensures EditingHasSelection(s) ==> EditingHasSelection(r.after)
  {
    if d == Down && config.canAddRow then
      if |s.rows| == 0 then Step(s, [], TypeError) else Step(s.(rows := GrowDown(s.rows)), [], Completed)
    else if d == Right && config.canAddColumn then
      Step(s.(rows := GrowRight(s.rows)), [], Completed)
    else
      NoChange(s)
  }

  /** `navigateTable(direction, null, override)`: suppressed while editing
      unless overridden; otherwise selects the neighbouring data cell, clicks a
      neighbouring clickable header, or falls back to `extendTable` and stops. */
  function Navigate(config: Config, s: State, d: Direction, override: bool): (r: Step)
    ensures !override && s.editing ==> r == NoChange(s)
    ensures r.after.editing == s.editing && r.after.lastBlurred == s.lastBlurred
    ensures r.after.selected != s.selected ==>
      s.selected.Some? && r.after.selected.Some? && r.after.selected == Neighbour(s.selected.value, d) &&
      r.after.rows == s.rows && r.published == [CellSelected(r.after.selected.value)]
    ensures r.after.rows != s.rows ==>
      r.after.selected == s.selected && r.published == [] && (d == Down || d == Right)
    ensures Extends(s.rows, r.after.rows)
    ensures Valid(config, s) ==> Valid(config, r.after)
    ensures EditingHasSelection(s) ==> EditingHasSelection(r.after)
  {
    if !override && s.editing then NoChange(s)
    else
      match FindTarget(config, s.rows, s.selected, d)
      case Span(c) => SelectCell(config, s, c)
      case HeadSpan(c) => Step(s, [HeadCellClicked(c)], Completed)
      case NoSpan => Extend(config, s, d)
  }

  /** The `letter_keyup` handler: start editing when a cell is selected and
      editing has not started yet. */
  function BeginEdit(s: State): (r: Step)
    ensures r.published == [] && r.status == Completed
    ensures r.after.rows == s.rows && r.after.selected == s.selected && r.after.lastBlurred == s.lastBlurred
    ensures r.after.editing <==> s.editing || s.selected.Some?
    ensures EditingHasSelection(s) ==> EditingHasSelection(r.after)
  {
    if !s.editing && s.selected.Some? then Step(s.(editing := true), [], Completed) else NoChange(s)
  }

  /** The `remove_keyup` handler: empty the selected cell unless it is the cell
      blurred last. */
  function RemoveSelected(config: Config, s: State): (r: Step)
    requires Valid(config, s)
    ensures r.published != [] <==> s.selected.Some? && s.selected != s.lastBlurred
    ensures r.published != [] ==> r == ChangeCellValue(config, s, s.selected.value, Blank)
    ensures r.published == [] ==> r.after == s
    ensures r.after.selected == s.selected && r.after.editing == s.editing && r.after.lastBlurred == s.lastBlurred
    ensures Valid(config, r.after)
  {
    if s.selected.Some? && !EqualCells(s.selected, s.lastBlurred) then
      ChangeCellValue(config, s, s.selected.value, Blank)
    else
      NoChange(s)
  }

  /** The table's `cellBlurred` subscription. */
  function Blur(s: State, c: Coord): (r: Step)
    ensures !r.after.editing && r.after.lastBlurred == Some(c)
    ensures r.after.rows == s.rows && r.after.selected == s.selected
    ensures r.published == [] && r.status == Completed
  {
    Step(s.(editing := false, lastBlurred := Some(c)), [], Completed)
  }

  /** `handleDoubleClickOnCell`: enter editing, whatever the state. */
  function DoubleClick(s: State): (r: Step)
    ensures r.after.editing
    ensures r.after.rows == s.rows && r.after.selected == s.selected && r.after.lastBlurred == s.lastBlurred
    ensures r.published == [] && r.status == Completed
  {
    Step(s.(editing := true), [], Completed)
  }

  /** The key topics `bindKeyboard` subscribes to that change the grid. */
  datatype KeyTopic = UpKeyUp | DownKeyUp | LeftKeyUp | RightKeyUp | TabKeyUp | LetterKeyUp | RemoveKeyUp

  /** The handler `bindKeyboard` installs for each topic. */
  function KeyUp(config: Config, s: State, k: KeyTopic): (r: Step)
    requires Valid(config, s)
    ensures Valid(config, r.after)
    ensures EditingHasSelection(s) ==> EditingHasSelection(r.after)
    ensures s.editing && k != TabKeyUp && k != RemoveKeyUp ==> r == NoChange(s)
    ensures k == TabKeyUp ==> r == Navigate(config, s, Right, true)
    ensures NoSmaller(s.rows, r.after.rows)
  {
    match k
    case UpKeyUp => Navigate(config, s, Up, false)
    case DownKeyUp => Navigate(config, s, Down, false)
    case LeftKeyUp => Navigate(config, s, Left, false)
    case RightKeyUp => Navigate(config, s, Right, false)
    case TabKeyUp => Navigate(config, s, Right, true)
    case LetterKeyUp => BeginEdit(s)
    case RemoveKeyUp => RemoveSelected(config, s)
  }

  /** The state after a sequence of key releases. */
  function Run(config: Config, s: State, keys: seq<KeyTopic>): (t: State)
    requires Valid(config, s)
    ensures Valid(config, t)
    ensures NoSmaller(s.rows, t.rows)
    ensures EditingHasSelection(s) ==> EditingHasSelection(t)
    decreases |keys|
  {
    if keys == [] then s else Run(config, KeyUp(config, s, keys[0]).after, keys[1..])
  }

  function Repeat(k: KeyTopic, n: nat): seq<KeyTopic>
  {
    seq(n, _ => k)
  }

  /** Navigating to an in-range data cell selects exactly that neighbour and
      changes nothing else. */
  lemma NavigateSelectsNeighbour(config: Config, s: State, d: Direction, override: bool, n: Coord)
    requires override || !s.editing
    requires s.selected.Some? && Neighbour(s.selected.value, d) == Some(n)
    requires InRange(s.rows, n) && !CellRules.IsHeader(config, n)
    ensures Navigate(config, s, d, override) == Step(s.(selected := Some(n)), [CellSelected(n)], Completed)
  {
  }

  /** Without a selection, or at the edge of the grid, navigation falls back
      to `extendTable` and the selection does not move. */
  lemma NavigateOffTheGrid(config: Config, s: State, d: Direction, override: bool)
    requires override || !s.editing
    requires s.selected.None? || Neighbour(s.selected.value, d).None? ||
             !InRange(s.rows, Neighbour(s.selected.value, d).value)
    ensures Navigate(config, s, d, override) == Extend(config, s, d)
    ensures Navigate(config, s, d, override).after.selected == s.selected
  {
  }

  /** Navigating onto a header never changes the state: a clickable header
      only publishes `headCellClicked`, a plain one leads to an extension
      upward or leftward, which does nothing. */
  lemma NavigateOntoHeader(config: Config, s: State, d: Direction, override: bool, n: Coord)
    requires Valid(config, s) && (override || !s.editing)
    requires s.selected.Some? && Neighbour(s.selected.value, d) == Some(n)
    requires InRange(s.rows, n) && CellRules.IsHeader(config, n)
    ensures Navigate(config, s, d, override).after == s
    ensures Navigate(config, s, d, override).published ==
      if CellRules.IsClickableHeader(config, n) then [HeadCellClicked(n)] else []
  {
  }

  /** With `canAddColumn` off, moving right from the last column does nothing. */
  lemma RightAtLastColumnFixed(config: Config, s: State)
    requires Valid(config, s) && !config.canAddColumn && !s.editing
    requires s.selected.Some? && s.selected.value.col + 1 == Width(s.rows)
    ensures KeyUp(config, s, RightKeyUp) == NoChange(s)
  {
  }

  /** With `canAddColumn` on, moving right from the last column grows the grid
      by one column and leaves the selection where it is. */
  lemma RightAtLastColumnGrows(config: Config, s: State)
    requires Valid(config, s) && config.canAddColumn && !s.editing
    requires s.selected.Some? && s.selected.value.col + 1 == Width(s.rows)
    ensures KeyUp(config, s, RightKeyUp) == Step(s.(rows := GrowRight(s.rows)), [], Completed)
  {
  }

  /** Moving right inside a row selects the next cell of that row. */
  lemma RightWithinRow(config: Config, s: State)
    requires Valid(config, s) && !s.editing
    requires s.selected.Some? && s.selected.value.col + 1 < |s.rows[s.selected.value.row]|
    ensures var n := Coord(s.selected.value.row, s.selected.value.col + 1);
      KeyUp(config, s, RightKeyUp) == Step(s.(selected := Some(n)), [CellSelected(n)], Completed)
  {
  }

  /** Two right presses from the last column: the first grows the grid, the
      second moves into the new column, which is again the last one. */
  lemma RightTwiceFromLastColumn(config: Config, s: State)
    requires Valid(config, s) && config.canAddColumn && !s.editing
    requires s.selected.Some? && s.selected.value.col + 1 == Width(s.rows)
    ensures var s2 := KeyUp(config, KeyUp(config, s, RightKeyUp).after, RightKeyUp).after;
      Valid(config, s2) && s2.rows == GrowRight(s.rows) &&
      |s2.rows| == |s.rows| && Width(s2.rows) == Width(s.rows) + 1 &&
      s2.selected == Some(Coord(s.selected.value.row, s.selected.value.col + 1)) &&
      s2.editing == s.editing
  {
    RightAtLastColumnGrows(config, s);
    var s1 := s.(rows := GrowRight(s.rows));
    RightWithinRow(config, s1);
  }

  /** `Run` over `2k` right presses from the last column is `Run` over two
      fewer presses from a state one column wider whose selection is one
      column further right, again in the last column. */
  lemma RightPairThenRun(config: Config, s: State, k: nat) returns (s2: State)
    requires Valid(config, s) && config.canAddColumn && !s.editing
    requires s.selected.Some? && s.selected.value.col + 1 == Width(s.rows) && k > 0
    ensures Valid(config, s2) && !s2.editing && |s2.rows| == |s.rows| && Width(s2.rows) == Width(s.rows) + 1
    ensures s2.selected.Some? && s2.selected.value.row == s.selected.value.row
    ensures s2.selected.value.col == s.selected.value.col + 1 && s2.selected.value.col + 1 == Width(s2.rows)
    ensures Run(config, s, Repeat(RightKeyUp, 2 * k)) == Run(config, s2, Repeat(RightKeyUp, 2 * (k - 1)))
  {
    var keys := Repeat(RightKeyUp, 2 * k);
    assert keys[0] == RightKeyUp && keys[1] == RightKeyUp;
    assert keys[1..][1..] == Repeat(RightKeyUp, 2 * (k - 1));
    RightTwiceFromLastColumn(config, s);
    s2 := s.(rows := GrowRight(s.rows), selected := Some(Coord(s.selected.value.row, s.selected.value.col + 1)));
  }

  /** With `canAddColumn` on, pressing right from the last column alternates
      between growing the grid (the selection stays) and moving into the new
      column, so 2k presses add k columns and move the selection k columns. */
  lemma {:induction false} RightPressesFromLastColumn(config: Config, s: State, k: nat)
    requires Valid(config, s) && config.canAddColumn && !s.editing
    requires s.selected.Some? && s.selected.value.col + 1 == Width(s.rows)
    ensures |Run(config, s, Repeat(RightKeyUp, 2 * k)).rows| == |s.rows|
    ensures Width(Run(config, s, Repeat(RightKeyUp, 2 * k)).rows) == Width(s.rows) + k
    ensures Run(config, s, Repeat(RightKeyUp, 2 * k)).selected.Some?
    ensures Run(config, s, Repeat(RightKeyUp, 2 * k)).selected.value.row == s.selected.value.row
    ensures Run(config, s, Repeat(RightKeyUp, 2 * k)).selected.value.col == s.selected.value.col + k
    ensures !Run(config, s, Repeat(RightKeyUp, 2 * k)).editing
    decreases k
  {
    if k == 0 {
      assert Repeat(RightKeyUp, 0) == [];
    } else {
      var s2 := RightPairThenRun(config, s, k);
      RightPressesFromLastColumn(config, s2, k - 1);
    }
  }

  /** Entering edit mode twice is the same as entering it once. */
  lemma BeginEditIdempotent(s: State)
    ensures BeginEdit(BeginEdit(s).after) == NoChange(BeginEdit(s).after)
  {
  }

  /** A double click enters editing even with nothing selected, so the
      editing-implies-selection invariant is not kept by every handler. */
  lemma DoubleClickWithoutSelection(s: State)
    requires s.selected.None?
    ensures !EditingHasSelection(DoubleClick(s).after)
  {
  }

  /** The `lastBlurred` guard: right after its blur, a delete key does not
      wipe the cell. */
  lemma RemoveAfterBlurKeepsCell(config: Config, s: State)
    requires Valid(config, s) && s.selected.Some?
    ensures RemoveSelected(config, Blur(s, s.selected.value).after) == NoChange(Blur(s, s.selected.value).after)
  {
  }

  /** A freshly selected cell that was not the last one blurred is emptied by
      a delete key, and only that cell changes. */
  lemma RemoveAfterSelectEmptiesCell(config: Config, s: State, c: Coord)
    requires Valid(config, s) && InRange(s.rows, c) && !CellRules.IsHeader(config, c)
    requires s.lastBlurred != Some(c)
    ensures RemoveSelected(config, SelectCell(config, s, c).after).after.rows == Updated(s.rows, c, Blank)
  {
  }

  /** A 2 x 2 grid that may grow downward: from (0, 0) the first down selects
      (1, 0); the second grows the grid to three rows and leaves the selection
      at (1, 0); the third selects (2, 0). */
  lemma GrowDownExample()
    ensures
      var config := Config(2, 2, false, false, false, false, false, true, false, "");
      var s0 := SelectCell(config, Initial(config, None), Coord(0, 0)).after;
      var s1 := KeyUp(config, s0, DownKeyUp).after;
      var s2 := KeyUp(config, s1, DownKeyUp).after;
      var s3 := KeyUp(config, s2, DownKeyUp).after;
      s1.selected == Some(Coord(1, 0)) && |s1.rows| == 2 &&
      s2.selected == Some(Coord(1, 0)) && |s2.rows| == 3 &&
      s3.selected == Some(Coord(2, 0)) && |s3.rows| == 3
  {
    var config := Config(2, 2, false, false, false, false, false, true, false, "");
    var s0 := SelectCell(config, Initial(config, None), Coord(0, 0)).after;
    NavigateSelectsNeighbour(config, s0, Down, false, Coord(1, 0));
    var s1 := s0.(selected := Some(Coord(1, 0)));
    assert KeyUp(config, s0, DownKeyUp).after == s1;
    NavigateOffTheGrid(config, s1, Down, false);
    var s2 := s1.(rows := GrowDown(s1.rows));
    assert KeyUp(config, s1, DownKeyUp).after == s2;
    NavigateSelectsNeighbour(config, s2, Down, false, Coord(2, 0));
  }
}
