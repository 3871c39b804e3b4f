/** The pure rules of a cell: its display value, whether it is a header, the
    header's label and whether that label is clickable, and whether the edit
    input is shown. */
module CellRules {
  import opened Grid

  /** The properties a row hands to each cell. */
  datatype CellProps = CellProps(
    uid: Coord,
    value: Value,
    config: Option<Config>,
    selected: bool,
    editing: bool)

  /** What a cell shows: its stored value, the empty-value symbol, the row
      index, or `Helpers.countWithLetters` of the column index (that helper is
      not part of this model, so the label is kept as the index it is applied to). */
  datatype Shown =
    | Stored(value: Value)
    | Symbol(symbol: string)
    | RowIndex(index: nat)
    | ColumnLetters(index: nat)

  /** The rendered cell: a `th` with its label, with or without a clickable
      span, or a `td` with its display value and, when present, the edit input
      with its default value. */
  datatype CellView =
    | HeadCell(caption: Shown, clickable: bool)
    | DataCell(shown: Shown, editInput: Option<Value>)

  /** `props.config || { emptyValueSymbol: '' }`: the stand-in object leaves
      every flag undefined, hence false. */
  function EffectiveConfig(config: Option<Config>): (c: Config)
    ensures config.Some? ==> c == config.value
    ensures config.None? ==> c.emptyValueSymbol == ""
    ensures config.None? ==> !c.hasHeadRow && !c.hasHeadColumn && !c.hasLetterNumberHeads
    ensures config.None? ==> !c.isHeadRowString && !c.isHeadColumnString
  {
    match config
    case Some(c) => c
    case None => Config(0, 0, false, false, false, false, false, false, false, "")
  }

  /** JavaScript truthiness: the empty string is falsy, an array (even `[]`) is not. */
  predicate Falsy(v: Value)
  {
    v == Text("")
  }

  /** `(value === '' || !value) ? config.emptyValueSymbol : value`. */
  function DisplayValue(value: Value, config: Option<Config>): (d: Shown)
    ensures d.Symbol? <==> Falsy(value)
    ensures d.Symbol? ==> d.symbol == EffectiveConfig(config).emptyValueSymbol
    ensures !d.Symbol? ==> d == Stored(value)
  {
    if Falsy(value) then Symbol(EffectiveConfig(config).emptyValueSymbol) else Stored(value)
  }

  predicate IsHeader(config: Config, uid: Coord)
  {
    (config.hasHeadRow && uid.row == 0) || (config.hasHeadColumn && uid.col == 0)
  }

  /** Tested on the raw row/column position, not on whether that head is enabled. */
  predicate IsClickableHeader(config: Config, uid: Coord)
  {
    (config.isHeadRowString && uid.row == 0) || (config.isHeadColumnString && uid.col == 0)
  }

  /** The label of a header cell; the column-0 test comes first. */
  function HeaderLabel(p: CellProps): (caption: Shown)
    ensures EffectiveConfig(p.config).hasLetterNumberHeads && p.uid.col == 0 ==>
      caption == RowIndex(p.uid.row)
    ensures EffectiveConfig(p.config).hasLetterNumberHeads && p.uid.col != 0 && p.uid.row == 0 ==>
      caption == ColumnLetters(p.uid.col)
    ensures !EffectiveConfig(p.config).hasLetterNumberHeads || (p.uid.row != 0 && p.uid.col != 0) ==>
      caption == DisplayValue(p.value, p.config)
  {
    var config := EffectiveConfig(p.config);
    if p.uid.col == 0 && config.hasLetterNumberHeads then RowIndex(p.uid.row)
    else if p.uid.row == 0 && config.hasLetterNumberHeads then ColumnLetters(p.uid.col)
    else DisplayValue(p.value, p.config)
  }

  /** `renderHeader`: `None` stands for its `false` result. */
  function RenderHeader(p: CellProps): (h: Option<CellView>)
    ensures h.None? <==>
      !((EffectiveConfig(p.config).hasHeadRow && p.uid.row == 0) ||
        (EffectiveConfig(p.config).hasHeadColumn && p.uid.col == 0))
    ensures h.Some? ==> h.value.HeadCell? && h.value.caption == HeaderLabel(p)
    ensures h.Some? ==> (h.value.clickable <==>
      (EffectiveConfig(p.config).isHeadRowString && p.uid.row == 0) ||
      (EffectiveConfig(p.config).isHeadColumnString && p.uid.col == 0))
  {
    var config := EffectiveConfig(p.config);
    if IsHeader(config, p.uid) then
      Some(HeadCell(HeaderLabel(p), IsClickableHeader(config, p.uid)))
    else
      None
  }

  /** `render`: the header if there is one, else the data cell. */
  function Render(p: CellProps): (v: CellView)
    ensures v.HeadCell? <==> IsHeader(EffectiveConfig(p.config), p.uid)
    ensures v.HeadCell? ==> Some(v) == RenderHeader(p)
    ensures v.DataCell? ==> v.shown == DisplayValue(p.value, p.config)
    ensures (v.DataCell? && v.editInput.Some?) <==>
      !IsHeader(EffectiveConfig(p.config), p.uid) && p.selected && p.editing
    ensures v.DataCell? && v.editInput.Some? ==> v.editInput.value == p.value
  {
    match RenderHeader(p)
    case Some(head) => head
    case None => DataCell(DisplayValue(p.value, p.config), if p.selected && p.editing then Some(p.value) else None)
  }

  /** Without a config no cell is a header, and an empty cell shows `''`. */
  lemma MissingConfig(p: CellProps)
    requires p.config.None?
    ensures Render(p).DataCell?
    ensures Falsy(p.value) ==> Render(p).shown == Symbol("")
  {
  }

  /** The `[]` entries of a column added by extending the grid are truthy, so
      such a cell keeps its stored `[]`, which React renders as nothing, and
      never gets the empty-value symbol. */
  lemma AddedColumnEntryShownRaw(config: Option<Config>)
    ensures DisplayValue(EmptyArray, config) == Stored(EmptyArray)
    ensures DisplayValue(Blank, config) != Stored(Blank)
  {
  }

  /** At (0, 0) with letter/number heads the column-0 rule wins: the label is
      the row index 0, not the letters of column 0. */
  lemma CornerLabel(p: CellProps)
    requires p.uid == Coord(0, 0) && EffectiveConfig(p.config).hasLetterNumberHeads
    ensures HeaderLabel(p) == RowIndex(0)
    ensures HeaderLabel(p) != ColumnLetters(0)
  {
  }
}
