/** The table component: the grid and the selection/editing fields it updates
    in place, with the handlers it installs on the dispatcher. Each handler is
    proved to do what the matching function of `TableSpec` describes. */
module Table {
  import opened Grid
  import opened Bus
  import opened Navigation
  import opened TableSpec
  import CellRules

  class TableComponent {
    const config: Config
    /** The dispatcher the table publishes on and whose `cellBlurred` it hears. */
    const bus: Dispatcher
    var rows: Matrix
    var selected: Option<Coord>
    var lastBlurred: Option<Coord>
    var editing: bool

    function View(): State
      reads this
    {
      State(rows, selected, lastBlurred, editing)
    }

    predicate Valid()
      reads this
    {
      TableSpec.Valid(config, View())
    }

    /** `getInitialState`; the subscriptions of `componentWillMount` are the
        handler methods below. */
    constructor (config: Config, initialRows: Option<Matrix>, bus: Dispatcher)
      requires initialRows.Some? ==> Rectangular(initialRows.value)
      ensures this.config == config && this.bus == bus
      ensures View() == Initial(config, initialRows) && Valid()
    {
      this.config := config;
      this.bus := bus;
      var data: Matrix;
      if initialRows.None? {
        data := NewBlankMatrix(config.rows, config.columns);
      } else {
        data := initialRows.value;
      }
      rows := data;
      selected := None;
      lastBlurred := None;
      editing := false;
    }

    method HandleSelectCell(cell: Coord)
      requires Valid() && InRange(rows, cell) && !CellRules.IsHeader(config, cell)
      modifies this, bus
      ensures Valid()
      ensures View() == SelectCell(config, old(View()), cell).after
      ensures bus.log == old(bus.log) + SelectCell(config, old(View()), cell).published
    {
      bus.Publish(CellSelected(cell));
      selected := Some(cell);
    }

    method HandleCellValueChange(cell: Coord, newValue: Value)
      requires Valid() && InRange(rows, cell)
      modifies this, bus
      ensures Valid()
      ensures View() == ChangeCellValue(config, old(View()), cell, newValue).after
      ensures bus.log == old(bus.log) + ChangeCellValue(config, old(View()), cell, newValue).published
    {
      bus.Publish(CellValueChanged(cell, newValue));
      rows := rows[cell.row := rows[cell.row][cell.col := newValue]];
      bus.Publish(DataChanged(rows));
    }

    method HandleDoubleClickOnCell()
      modifies this
      ensures View() == DoubleClick(old(View())).after
    {
      editing := true;
    }

    /** The `cellBlurred` subscription. */
    method OnCellBlurred(cell: Coord)
      requires Valid()
      modifies this
      ensures Valid()
      ensures View() == Blur(old(View()), cell).after
    {
      editing := false;
      lastBlurred := Some(cell);
    }

    method ExtendTable(direction: Direction) returns (status: Status)
      requires Valid()
      modifies this
      ensures Valid()
      ensures View() == Extend(config, old(View()), direction).after
      ensures status == Extend(config, old(View()), direction).status
    {
      if direction == Down && config.canAddRow {
        if |rows| == 0 {
          // `this.state.data.rows[0].length` on an empty grid
          return TypeError;
        }
        var newRow := NewBlankRow(|rows[0]|);
        rows := rows + [newRow];
        return Completed;
      }
      if direction == Right && config.canAddColumn {
        rows := AppendColumnEntries(rows);
      }
      return Completed;
    }

    method NavigateTable(direction: Direction, override: bool) returns (status: Status)
      requires Valid()
      modifies this, bus
      ensures Valid()
      ensures View() == Navigate(config, old(View()), direction, override).after
      ensures bus.log == old(bus.log) + Navigate(config, old(View()), direction, override).published
      ensures status == Navigate(config, old(View()), direction, override).status
    {
      status := Completed;
      if !override && editing {
        return;
      }
      var target := FindTarget(config, rows, selected, direction);
      match target
      case Span(cell) =>
        HandleSelectCell(cell);
      case HeadSpan(cell) =>
        // the header's `handleHeadClick`
        bus.Publish(HeadCellClicked(cell));
      case NoSpan =>
        status := ExtendTable(direction);
    }

    /** The key-release subscriptions of `bindKeyboard`. */
    method HandleKeyUp(topic: KeyTopic) returns (status: Status)
      requires Valid()
      modifies this, bus
      ensures Valid()
      ensures View() == KeyUp(config, old(View()), topic).after
      ensures bus.log == old(bus.log) + KeyUp(config, old(View()), topic).published
      ensures status == KeyUp(config, old(View()), topic).status
    {
      status := Completed;
      match topic
      case UpKeyUp =>
        status := NavigateTable(Up, false);
      case DownKeyUp =>
        status := NavigateTable(Down, false);
      case LeftKeyUp =>
        status := NavigateTable(Left, false);
      case RightKeyUp =>
        status := NavigateTable(Right, false);
      case TabKeyUp =>
        status := NavigateTable(Right, true);
      case LetterKeyUp =>
        if !editing && selected.Some? {
          editing := true;
        }
      case RemoveKeyUp =>
        if selected.Some? && !EqualCells(selected, lastBlurred) {
          HandleCellValueChange(selected.value, Blank);
        }
    }
  }
}
