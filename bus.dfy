/** The notifications the grid publishes on its dispatcher, kept as an
    append-only log in the order they were published. */
module Bus {
  import opened Grid

  datatype Event =
    | CellSelected(cell: Coord)
    | CellValueChanged(cell: Coord, value: Value)
      /** Carries the whole matrix as it stands when published. */
    | DataChanged(rows: Matrix)
    | CellBlurred(cell: Coord)
    | HeadCellClicked(cell: Coord)

  class Dispatcher {
    var log: seq<Event>

    constructor ()
      ensures log == []
    {
      log := [];
    }

    method Publish(e: Event)
      modifies this
      ensures log == old(log) + [e]
    {
      log := log + [e];
    }
  }
}
