/** The table entities every component shares: cells, columns, sort and pin
    entries, and the tab that holds them. */
module Schema {

  datatype Option<+T> = None | Some(value: T)

  datatype CellKind =
    | Text | Money | Readonly | Date | Status | Drilldown
    | Warranty | Urgency | Notes | Entity | Ops | TelephoneNumber

  datatype Cell = Cell(value: string, kind: CellKind, isNull: bool)

  type CellRow = seq<Cell>

  /** A column. `max == 0` means no maximum; `hideOrder == 0` means visible, and
      a larger `hideOrder` means hidden more recently; the cells of a linked column lead
      to another tab. */
  datatype ColumnSpec = ColumnSpec(
    title: string,
    min: int,
    max: int,
    flex: bool,
    kind: CellKind,
    fixedValues: seq<string>,
    hideOrder: nat,
    linked: bool)

  datatype SortDir = Asc | Desc

  datatype SortEntry = SortEntry(col: int, dir: SortDir)

  /** Pinned values of one column; values of a pin are alternatives, pins of
      different columns must all be met. */
  datatype Pin = Pin(col: nat, values: set<string>)

  datatype RowMeta = RowMeta(id: string, deleted: bool, dimmed: bool)

  /** One row of the table widget. */
  type TableRow = seq<string>

  class Tab {
    var Specs: seq<ColumnSpec>
    var ColCursor: int
    var ViewOffset: int
    var Sorts: seq<SortEntry>
    var Pins: seq<Pin>
    var FilterActive: bool
    var FilterInverted: bool
    // the displayed rows: cells, metadata and widget rows
    var CellRows: seq<CellRow>
    var Rows: seq<RowMeta>
    var TableRows: seq<TableRow>
    // the loaded rows, before any row filter
    var FullCellRows: seq<CellRow>
    var FullMeta: seq<RowMeta>
    var FullRows: seq<TableRow>

    constructor (specs: seq<ColumnSpec>)
      ensures Specs == specs && ColCursor == 0 && ViewOffset == 0
      ensures Sorts == [] && Pins == [] && !FilterActive && !FilterInverted
      ensures CellRows == [] && Rows == [] && TableRows == []
      ensures FullCellRows == [] && FullMeta == [] && FullRows == []
    {
      Specs, ColCursor, ViewOffset := specs, 0, 0;
      Sorts, Pins, FilterActive, FilterInverted := [], [], false, false;
      CellRows, Rows, TableRows := [], [], [];
      FullCellRows, FullMeta, FullRows := [], [], [];
    }
  }

  /** The sequence without its element at `k`. */
  function Without<T>(s: seq<T>, k: nat): seq<T>
    requires k < |s|
  {
    s[..k] + s[k + 1..]
  }

  function Max(a: int, b: int): int { if a >= b then a else b }
}
