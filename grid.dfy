/** The table's data: cell values, coordinates, the configuration object and
    the matrix `data.rows` with the operations that build, grow and write it. */
module Grid {

  datatype Option<T> = None | Some(value: T)

  /** A stored cell value. Every write the grid makes stores a string, except
      extending it to the right, which pushes a fresh empty array `[]`. */
  datatype Value = Text(text: string) | EmptyArray

  /** The empty string `''`, the value of every cell of a blank grid. */
  const Blank: Value := Text("")

  /** A cell's `uid`: its row and column, both counted from 0. */
  datatype Coord = Coord(row: nat, col: nat)

  /** `data.rows`: one sequence of values per row. */
  type Matrix = seq<seq<Value>>

  /** The `config` property shared by the table and its cells; it never changes. */
  datatype Config = Config(
    rows: nat,
    columns: nat,
    hasHeadRow: bool,
    hasHeadColumn: bool,
    hasLetterNumberHeads: bool,
    isHeadRowString: bool,
    isHeadColumnString: bool,
    canAddRow: bool,
    canAddColumn: bool,
    emptyValueSymbol: string)

  /** `Helpers.equalCells`, taken to compare coordinates structurally and to be
      false when either side is null. */
  predicate EqualCells(a: Option<Coord>, b: Option<Coord>)
  {
    a.Some? && b.Some? && a.value == b.value
  }

  /** The length of the first row, the width the table uses for a new row. */
  function Width(m: Matrix): nat
  {
    if |m| == 0 then 0 else |m[0]|
  }

  predicate Rectangular(m: Matrix)
  {
    forall i :: 0 <= i < |m| ==> |m[i]| == Width(m)
  }

  /** `m'` keeps every row of `m`, in order, each one as a prefix. */
  predicate Extends(m: Matrix, m': Matrix)
  {
    |m| <= |m'| && forall i :: 0 <= i < |m| ==> m[i] <= m'[i]
  }

  /** `m'` has at least as many rows as `m` and its first row is at least as wide. */
  predicate NoSmaller(m: Matrix, m': Matrix)
  {
    |m| <= |m'| && Width(m) <= Width(m')
  }

  predicate InRange(m: Matrix, c: Coord)
  {
    c.row < |m| && c.col < |m[c.row]|
  }

  /** A row of `n` empty strings. */
  function Blanks(n: nat): (r: seq<Value>)
    ensures |r| == n
    ensures forall j :: 0 <= j < n ==> r[j] == Blank
  {
    seq(n, _ => Blank)
  }

  /** The grid `getInitialState` builds when no rows are supplied. */
  function BlankMatrix(rows: nat, columns: nat): (m: Matrix)
    ensures |m| == rows && Rectangular(m)
    ensures rows > 0 ==> Width(m) == columns
    ensures forall i :: 0 <= i < rows ==> |m[i]| == columns
    ensures forall i, j :: 0 <= i < rows && 0 <= j < columns ==> m[i][j] == Blank
  {
    seq(rows, _ => Blanks(columns))
  }

  /** `extendTable('down')`: one more row of `''` as wide as the first row. */
  function GrowDown(m: Matrix): (r: Matrix)
    requires |m| > 0
    ensures |r| == |m| + 1 && r[..|m|] == m
    ensures |r[|m|]| == |m[0]| && forall j :: 0 <= j < |m[0]| ==> r[|m|][j] == Blank
    ensures Rectangular(m) ==> Rectangular(r) && Width(r) == Width(m)
  {
    m + [Blanks(|m[0]|)]
  }

  /** `extendTable('right')`: every row gets one more entry, an empty array. */
  function GrowRight(m: Matrix): (r: Matrix)
    ensures |r| == |m|
    ensures forall i :: 0 <= i < |m| ==> |r[i]| == |m[i]| + 1 && r[i][|m[i]|] == EmptyArray
    ensures forall i, j :: 0 <= i < |m| && 0 <= j < |m[i]| ==> r[i][j] == m[i][j]
    ensures Rectangular(m) ==> Rectangular(r) && (|m| > 0 ==> Width(r) == Width(m) + 1)
  {
    seq(|m|, i requires 0 <= i < |m| => m[i] + [EmptyArray])
  }

  /** `data.rows[row][column] = value`. */
  function Updated(m: Matrix, c: Coord, v: Value): (r: Matrix)
    requires InRange(m, c)
    ensures |r| == |m| && forall i :: 0 <= i < |m| ==> |r[i]| == |m[i]|
    ensures r[c.row][c.col] == v
    ensures forall i, j :: 0 <= i < |m| && 0 <= j < |m[i]| && (i, j) != (c.row, c.col) ==> r[i][j] == m[i][j]
    ensures Rectangular(m) ==> Rectangular(r)
  {
    m[c.row := m[c.row][c.col := v]]
  }

  /** Writing the value a cell already holds leaves the grid as it was. */
  lemma UpdatedWithSameValue(m: Matrix, c: Coord)
    requires InRange(m, c)
    ensures Updated(m, c, m[c.row][c.col]) == m
  {
    assert m[c.row][c.col := m[c.row][c.col]] == m[c.row];
  }

  /** The loop that fills `newRow` in `extendTable('down')`. */
  method NewBlankRow(width: nat) returns (row: seq<Value>)
    ensures row == Blanks(width)
  {
    row := [];
    var i := 0;
    while i < width
      invariant 0 <= i <= width
      invariant row == Blanks(i)
    {
      row := row + [Blank];
      i := i + 1;
    }
  }

  /** The nested loops of `getInitialState` that fill `initialData.rows`. */
  method NewBlankMatrix(rows: nat, columns: nat) returns (m: Matrix)
    ensures m == BlankMatrix(rows, columns)
  {
    m := [];
    var i := 0;
    while i < rows
      invariant 0 <= i <= rows
      invariant m == BlankMatrix(i, columns)
    {
      var row: seq<Value> := [];
      var ci := 0;
      while ci < columns
        invariant 0 <= ci <= columns
        invariant row == Blanks(ci)
      {
        row := row + [Blank];
        ci := ci + 1;
      }
      m := m + [row];
      i := i + 1;
    }
  }

  /** The loop of `extendTable('right')` that pushes `[]` onto every row. */
  method AppendColumnEntries(rows: Matrix) returns (grown: Matrix)
    ensures grown == GrowRight(rows)
  {
    grown := rows;
    var i := 0;
    while i < |grown|
      invariant 0 <= i <= |grown| == |rows|
      invariant forall j :: 0 <= j < i ==> grown[j] == rows[j] + [EmptyArray]
      invariant forall j :: i <= j < |rows| ==> grown[j] == rows[j]
    {
      grown := grown[i := grown[i] + [EmptyArray]];
      i := i + 1;
    }
  }
}
