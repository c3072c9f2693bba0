/**
 * The data the statement pipeline works on: the untyped cell grid produced by
 * reading the CSV file without a header, and the typed transaction rows built
 * from it.
 */
module Statement {
  import opened Wrappers

  /** A raw cell: an empty CSV field is read as a missing value, anything else as text. */
  datatype Cell = Missing | Text(s: string)

  type Row = seq<Cell>
  type Grid = seq<Row>

  /** The grid as the CSV reader builds it: every row has the same number of cells. */
  predicate Rectangular(g: Grid)
  {
    forall i, j :: 0 <= i < |g| && 0 <= j < |g| ==> |g[i]| == |g[j]|
  }

  /** Cell `j` of a row; a position past the end reads as missing. */
  function CellAt(row: Row, j: nat): Cell
  {
    if j < |row| then row[j] else Missing
  }

  /**
   * One row of the normalised table. Dates are day numbers and amounts are
   * integers in the statement's smallest unit; `None` is a value that was
   * missing or could not be parsed. `cells` keeps the row's raw cells, which
   * also hold the columns that are never converted (Narration, Chq./Ref.No.,
   * Value Dt).
   */
  datatype Txn = Txn(
    serial: nat,
    date: Option<int>,
    withdrawal: Option<int>,
    deposit: Option<int>,
    balance: Option<int>,
    cells: Row)

  type Table = seq<Txn>

  /** The two amount columns of a statement. */
  datatype AmountColumn = Withdrawal | Deposit

  function Amount(col: AmountColumn, x: Txn): Option<int>
  {
    match col
    case Withdrawal => x.withdrawal
    case Deposit => x.deposit
  }

  /** The amount with a missing value read as 0. */
  function ZeroFilled(col: AmountColumn, x: Txn): int
  {
    match Amount(col, x)
    case Some(v) => v
    case None => 0
  }
}
