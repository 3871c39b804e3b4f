/** `navigateTable`'s walk through the rendered table, restated on coordinates:
    the neighbour of the origin cell in the given direction, and the `span`
    that `find('span')` yields there. */
module Navigation {
  import opened Grid
  import CellRules

  datatype Direction = Up | Down | Left | Right

  /** The cell one step away; none above row 0 or left of column 0 (jQuery's
      `prev()` of the first row or the first cell is empty). */
  function Neighbour(c: Coord, d: Direction): (n: Option<Coord>)
    ensures n.None? <==> (d == Up && c.row == 0) || (d == Left && c.col == 0)
    ensures n.Some? && d == Up ==> n.value.row + 1 == c.row && n.value.col == c.col
    ensures n.Some? && d == Down ==> n.value.row == c.row + 1 && n.value.col == c.col
    ensures n.Some? && d == Left ==> n.value.row == c.row && n.value.col + 1 == c.col
    ensures n.Some? && d == Right ==> n.value.row == c.row && n.value.col == c.col + 1
  {
    match d
    case Up => if c.row == 0 then None else Some(Coord(c.row - 1, c.col))
    case Down => Some(Coord(c.row + 1, c.col))
    case Left => if c.col == 0 then None else Some(Coord(c.row, c.col - 1))
    case Right => Some(Coord(c.row, c.col + 1))
  }

  /** What `target` holds: the span of a data cell, the clickable span of a
      header, or nothing. */
  datatype Target = Span(cell: Coord) | HeadSpan(cell: Coord) | NoSpan

  /** The target found from the selected cell. A plain header (`th` with no
      span), a missing neighbour and a missing selection (`$(null)`) all give
      an empty target. */
  function FindTarget(config: Config, rows: Matrix, selected: Option<Coord>, d: Direction): (t: Target)
    ensures t.Span? ==>
      selected.Some? && Neighbour(selected.value, d) == Some(t.cell) &&
      InRange(rows, t.cell) && !CellRules.IsHeader(config, t.cell)
    ensures t.HeadSpan? ==>
      selected.Some? && Neighbour(selected.value, d) == Some(t.cell) &&
      InRange(rows, t.cell) && CellRules.IsHeader(config, t.cell) && CellRules.IsClickableHeader(config, t.cell)
    ensures t.NoSpan? <==>
      selected.None? || Neighbour(selected.value, d).None? ||
      !InRange(rows, Neighbour(selected.value, d).value) ||
      (CellRules.IsHeader(config, Neighbour(selected.value, d).value) &&
       !CellRules.IsClickableHeader(config, Neighbour(selected.value, d).value))
  {
    if selected.None? then NoSpan
    else
      match Neighbour(selected.value, d)
      case None => NoSpan
      case Some(n) =>
        if !InRange(rows, n) then NoSpan
        else if !CellRules.IsHeader(config, n) then Span(n)
        else if CellRules.IsClickableHeader(config, n) then HeadSpan(n)
        else NoSpan
  }

  /** From a data cell, moving down or right never lands on a header: only the
      head row above and the head column to the left can stop the selection. */
  lemma HeadersOnlyUpOrLeft(config: Config, c: Coord, d: Direction)
    requires !CellRules.IsHeader(config, c)
    requires Neighbour(c, d).Some? && CellRules.IsHeader(config, Neighbour(c, d).value)
    ensures d == Up || d == Left
  {
  }
}
