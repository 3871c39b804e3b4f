/** The cell component's edit buffer `changedValue` and the handlers through
    which a cell reports to its table: a click selects, a double click starts
    editing, an update after an edit commits a changed buffer, and a blur
    commits the input and announces `cellBlurred`. */
module Cell {
  import opened Grid
  import opened Bus
  import CellRules
  import TableSpec
  import Table

  class CellComponent {
    var props: CellRules.CellProps
    /** Seeded from the `editing` property and never read again. */
    var editing: bool
    var changedValue: Value
    /** The table whose handlers the row passes down as callbacks. */
    const table: Table.TableComponent

    /** `getInitialState`. */
    constructor (props: CellRules.CellProps, table: Table.TableComponent)
      ensures this.props == props && this.table == table
      ensures editing == props.editing && changedValue == props.value
    {
      this.props := props;
      this.table := table;
      editing := props.editing;
      changedValue := props.value;
    }

    /** `handleChange`: only the buffer changes; the table is not touched. */
    method HandleChange(inputValue: string)
      modifies this`changedValue
      ensures changedValue == Text(inputValue)
    {
      changedValue := Text(inputValue);
    }

    /** `componentDidUpdate`: commit the buffer when the cell was selected and
        editing before the update and the buffer differs from the value. */
    method ComponentDidUpdate(prevProps: CellRules.CellProps)
      requires table.Valid() && InRange(table.rows, props.uid)
      modifies table, table.bus
      ensures table.Valid()
      ensures prevProps.selected && prevProps.editing && changedValue != props.value ==>
        table.View() == TableSpec.ChangeCellValue(table.config, old(table.View()), props.uid, changedValue).after &&
        table.bus.log == old(table.bus.log) +
          TableSpec.ChangeCellValue(table.config, old(table.View()), props.uid, changedValue).published
      ensures !(prevProps.selected && prevProps.editing && changedValue != props.value) ==>
        table.View() == old(table.View()) && table.bus.log == old(table.bus.log)
    {
      if prevProps.selected && prevProps.editing && changedValue != props.value {
        table.HandleCellValueChange(props.uid, changedValue);
      }
    }

    /** A change event on the input: `handleChange` sets `changedValue`, and
        the re-render that this state change causes runs `componentDidUpdate`
        with the unchanged properties as the previous ones. So while the cell
        is selected and editing, every keystroke that makes the text differ
        from the value is committed at once. */
    method HandleInputChange(inputValue: string)
      requires table.Valid() && InRange(table.rows, props.uid)
      modifies this`changedValue, table, table.bus
      ensures table.Valid()
      ensures changedValue == Text(inputValue)
      ensures props.selected && props.editing && Text(inputValue) != props.value ==>
        table.View() == TableSpec.ChangeCellValue(table.config, old(table.View()), props.uid, Text(inputValue)).after &&
        table.bus.log == old(table.bus.log) +
          TableSpec.ChangeCellValue(table.config, old(table.View()), props.uid, Text(inputValue)).published
      ensures !(props.selected && props.editing && Text(inputValue) != props.value) ==>
        table.View() == old(table.View()) && table.bus.log == old(table.bus.log)
    {
      HandleChange(inputValue);
      ComponentDidUpdate(props);
    }

    /** A re-render by the row: new properties, then `componentDidUpdate`
        with the previous ones. The buffer is not reseeded. */
    method Rerender(next: CellRules.CellProps)
      requires table.Valid() && InRange(table.rows, next.uid)
      modifies this`props, table, table.bus
      ensures table.Valid()
      ensures props == next && changedValue == old(changedValue)
      ensures old(props).selected && old(props).editing && changedValue != next.value ==>
        table.View() == TableSpec.ChangeCellValue(table.config, old(table.View()), next.uid, changedValue).after &&
        table.bus.log == old(table.bus.log) +
          TableSpec.ChangeCellValue(table.config, old(table.View()), next.uid, changedValue).published
      ensures !(old(props).selected && old(props).editing && changedValue != next.value) ==>
        table.View() == old(table.View()) && table.bus.log == old(table.bus.log)
    {
      var prevProps := props;
      props := next;
      ComponentDidUpdate(prevProps);
    }

    /** `handleBlur`: commit the input's value for this cell whether or not it
        changed, then publish `cellBlurred`, which the table hears. The row's
        `handleCellBlur` callback in between is not part of this model. */
    method HandleBlur(inputValue: string)
      requires table.Valid() && InRange(table.rows, props.uid)
      modifies table, table.bus
      ensures table.Valid()
      ensures table.View() == TableSpec.Blur(
        TableSpec.ChangeCellValue(table.config, old(table.View()), props.uid, Text(inputValue)).after, props.uid).after
      ensures table.bus.log == old(table.bus.log) +
        TableSpec.ChangeCellValue(table.config, old(table.View()), props.uid, Text(inputValue)).published +
        [CellBlurred(props.uid)]
    {
      table.HandleCellValueChange(props.uid, Text(inputValue));
      table.bus.Publish(CellBlurred(props.uid));
      table.OnCellBlurred(props.uid);
    }

    /** `handleClick` on a data cell's span. */
    method HandleClick()
      requires table.Valid() && InRange(table.rows, props.uid) && !CellRules.IsHeader(table.config, props.uid)
      modifies table, table.bus
      ensures table.Valid()
      ensures table.View() == TableSpec.SelectCell(table.config, old(table.View()), props.uid).after
      ensures table.bus.log == old(table.bus.log) + [CellSelected(props.uid)]
    {
      table.HandleSelectCell(props.uid);
    }

    /** `handleDoubleClick` on a data cell's span. */
    method HandleDoubleClick()
      modifies table
      ensures table.View() == TableSpec.DoubleClick(old(table.View())).after
    {
      table.HandleDoubleClickOnCell();
    }

    /** `handleHeadClick` on a header's span. */
    method HandleHeadClick()
      modifies table.bus
      ensures table.bus.log == old(table.bus.log) + [HeadCellClicked(props.uid)]
    {
      table.bus.Publish(HeadCellClicked(props.uid));
    }
  }

  /** Select (0, 0), start editing, enter "42" in one change event (a paste)
      and leave the cell: the change event writes the value and publishes
      `dataChanged`, the blur writes it and publishes `dataChanged` again, and
      the cell becomes the last blurred one with editing off. Typing key by
      key would add one write per keystroke that changes the text. */
  method EditAndBlurExample()
  {
    var config := Config(2, 2, false, false, false, false, false, false, false, "-");
    var origin := Coord(0, 0);
    var bus := new Dispatcher();
    var table := new Table.TableComponent(config, None, bus);
    var cell := new CellComponent(CellRules.CellProps(origin, Blank, Some(config), false, false), table);

    cell.HandleClick();
    cell.Rerender(CellRules.CellProps(origin, Blank, Some(config), true, false));
    cell.HandleDoubleClick();
    cell.Rerender(CellRules.CellProps(origin, Blank, Some(config), true, true));
    assert bus.log == [CellSelected(origin)];
    cell.HandleInputChange("42");
    var typed := table.rows;
    assert typed[0][0] == Text("42");
    assert bus.log == [CellSelected(origin), CellValueChanged(origin, Text("42")), DataChanged(typed)];
    cell.Rerender(CellRules.CellProps(origin, Text("42"), Some(config), true, true));
    cell.HandleBlur("42");
    UpdatedWithSameValue(typed, origin);
    assert table.rows == typed;
    assert table.lastBlurred == Some(origin) && !table.editing;
    assert bus.log == [CellSelected(origin),
                       CellValueChanged(origin, Text("42")), DataChanged(typed),
                       CellValueChanged(origin, Text("42")), DataChanged(typed),
                       CellBlurred(origin)];
  }

  /** Select (0, 0) and leave it with "7" in the input: a delete key right
      afterwards leaves the cell alone, because it is the last blurred one. */
  method DeleteAfterBlurExample()
  {
    var config := Config(2, 2, false, false, false, false, false, false, false, "-");
    var origin := Coord(0, 0);
    var bus := new Dispatcher();
    var table := new Table.TableComponent(config, None, bus);
    var cell := new CellComponent(CellRules.CellProps(origin, Blank, Some(config), false, false), table);

    cell.HandleClick();
    cell.HandleBlur("7");
    assert table.rows[0][0] == Text("7");
    var status := table.HandleKeyUp(TableSpec.RemoveKeyUp);
    assert table.rows[0][0] == Text("7") && status == TableSpec.Completed;
  }
}
