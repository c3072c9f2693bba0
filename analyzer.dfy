/**
 * The reducers over an extracted table (utils/analyzer.py): the debit and
 * credit totals, the latest closing balance, and the reshaping of the amounts
 * into one (date, type, amount) point per row and amount column for the
 * inflow/outflow chart.
 */
module Analyzer {
  import opened Wrappers
  import opened Statement

  // ---------------------------------------------------------------------------
  // Totals
  // ---------------------------------------------------------------------------

  /** The sum of the present values of one amount column; an absent value adds nothing. */
  function SumPresent(col: AmountColumn, t: Table): int
  {
    if t == [] then 0 else ZeroFilled(col, t[0]) + SumPresent(col, t[1..])
  }

  /** Totals add up over consecutive parts of a table. */
  lemma {:induction false} SumPresentAppend(col: AmountColumn, a: Table, b: Table)
    ensures SumPresent(col, a + b) == SumPresent(col, a) + SumPresent(col, b)
  {
    if a != [] {
      assert (a + b)[1..] == a[1..] + b;
      SumPresentAppend(col, a[1..], b);
    } else {
      assert a + b == b;
    }
  }

  /** A table whose present values are all non-negative has a non-negative total. */
  lemma {:induction false} SumPresentNonNegative(col: AmountColumn, t: Table)
    requires forall i :: 0 <= i < |t| && Amount(col, t[i]).Some? ==> Amount(col, t[i]).value >= 0
    ensures SumPresent(col, t) >= 0
  {
    if t != [] {
      SumPresentNonNegative(col, t[1..]);
    }
  }

  /** Rows without a value in the column do not change its total. */
  lemma {:induction false} SumPresentIgnoresAbsent(col: AmountColumn, t: Table, x: Txn)
    requires Amount(col, x).None?
    ensures SumPresent(col, [x] + t) == SumPresent(col, t)
    ensures SumPresent(col, t + [x]) == SumPresent(col, t)
  {
    assert ([x] + t)[1..] == t;
    SumPresentAppend(col, t, [x]);
  }

  // ---------------------------------------------------------------------------
  // Latest balance and the summary
  // ---------------------------------------------------------------------------

  /** The position of the last row whose closing balance is present. */
  function LastBalanceIndex(t: Table): (r: Option<nat>)
    ensures r.Some? ==> r.value < |t| && t[r.value].balance.Some?
    ensures r.Some? ==> forall j :: r.value < j < |t| ==> t[j].balance.None?
    ensures r.None? ==> forall j :: 0 <= j < |t| ==> t[j].balance.None?
    decreases |t|
  {
    if t == [] then None
    else if t[|t| - 1].balance.Some? then Some(|t| - 1)
    else LastBalanceIndex(t[..|t| - 1])
  }

  datatype Summary = Summary(totalDebit: int, totalCredit: int, latestBalance: int)

  /** Raised when no row has a closing balance, the empty table included. */
  datatype SummaryError = NoBalance

  /** The three figures of the summary panel. */
  function SummaryStats(t: Table): (r: Result<Summary, SummaryError>)
    ensures r.Failure? <==> forall j :: 0 <= j < |t| ==> t[j].balance.None?
    ensures r.Success? ==>
      r.value.totalDebit == SumPresent(Withdrawal, t) &&
      r.value.totalCredit == SumPresent(Deposit, t)
    ensures r.Success? ==>
      exists k :: 0 <= k < |t| && t[k].balance == Some(r.value.latestBalance) &&
        forall j :: k < j < |t| ==> t[j].balance.None?
  {
    var totalDebit := SumPresent(Withdrawal, t);
    var totalCredit := SumPresent(Deposit, t);
    match LastBalanceIndex(t)
    case None => Failure(NoBalance)
    case Some(k) => Success(Summary(totalDebit, totalCredit, t[k].balance.value))
  }

  /** With non-negative amounts, as statements have them, both totals are non-negative. */
  lemma TotalsNonNegative(t: Table)
    requires forall i :: 0 <= i < |t| ==> AtLeastZero(t[i].withdrawal) && AtLeastZero(t[i].deposit)
    requires SummaryStats(t).Success?
    ensures SummaryStats(t).value.totalDebit >= 0 && SummaryStats(t).value.totalCredit >= 0
  {
    SumPresentNonNegative(Withdrawal, t);
    SumPresentNonNegative(Deposit, t);
  }

  predicate AtLeastZero(a: Option<int>)
  {
    a.None? || a.value >= 0
  }

  // ---------------------------------------------------------------------------
  // The chart series
  // ---------------------------------------------------------------------------

  /**
   * The x value of a chart point. Filling the chart frame with 0 also fills a
   * missing date, which then plots as the number 0.
   */
  datatype PlotDate = Day(day: int) | ZeroFill

  function PlotDateOf(d: Option<int>): PlotDate
  {
    match d
    case Some(day) => Day(day)
    case None => ZeroFill
  }

  datatype Point = Point(date: PlotDate, kind: AmountColumn, amount: int)

  /** One point per row for one amount column, in table order. */
  function MeltColumn(t: Table, col: AmountColumn): seq<Point>
  {
    if t == [] then []
    else [Point(PlotDateOf(t[0].date), col, ZeroFilled(col, t[0]))] + MeltColumn(t[1..], col)
  }

  /** The zero-filled amounts in long form: all withdrawal points, then all deposit points. */
  function ChartSeries(t: Table): seq<Point>
  {
    MeltColumn(t, Withdrawal) + MeltColumn(t, Deposit)
  }

  lemma {:induction false} MeltColumnAt(t: Table, col: AmountColumn)
    ensures |MeltColumn(t, col)| == |t|
    ensures forall k :: 0 <= k < |t| ==>
      MeltColumn(t, col)[k] == Point(PlotDateOf(t[k].date), col, ZeroFilled(col, t[k]))
  {
    if t != [] {
      MeltColumnAt(t[1..], col);
    }
  }

  /**
   * The series has two points per row: first a withdrawal point for every row
   * in table order, then a deposit point for every row; each carries its row's
   * date and its amount with an absent amount read as 0.
   */
  lemma ChartSeriesShape(t: Table)
    ensures |ChartSeries(t)| == 2 * |t|
    ensures forall k :: 0 <= k < |t| ==>
      ChartSeries(t)[k] == Point(PlotDateOf(t[k].date), Withdrawal, ZeroFilled(Withdrawal, t[k])) &&
      ChartSeries(t)[|t| + k] == Point(PlotDateOf(t[k].date), Deposit, ZeroFilled(Deposit, t[k]))
  {
    MeltColumnAt(t, Withdrawal);
    MeltColumnAt(t, Deposit);
  }

  /** The sum of the amounts of the points of one type. */
  function PointTotal(points: seq<Point>, kind: AmountColumn): int
  {
    if points == [] then 0
    else (if points[0].kind == kind then points[0].amount else 0) + PointTotal(points[1..], kind)
  }

  lemma {:induction false} PointTotalAppend(a: seq<Point>, b: seq<Point>, kind: AmountColumn)
    ensures PointTotal(a + b, kind) == PointTotal(a, kind) + PointTotal(b, kind)
  {
    if a != [] {
      assert (a + b)[1..] == a[1..] + b;
      PointTotalAppend(a[1..], b, kind);
    } else {
      assert a + b == b;
    }
  }

  lemma {:induction false} MeltColumnTotal(t: Table, col: AmountColumn, kind: AmountColumn)
    ensures PointTotal(MeltColumn(t, col), kind) == if col == kind then SumPresent(col, t) else 0
  {
    if t != [] {
      MeltColumnTotal(t[1..], col, kind);
    }
  }

  /** The bars of each type add up to the matching total of the summary. */
  lemma ChartMatchesTotals(t: Table)
    ensures PointTotal(ChartSeries(t), Withdrawal) == SumPresent(Withdrawal, t)
    ensures PointTotal(ChartSeries(t), Deposit) == SumPresent(Deposit, t)
  {
    PointTotalAppend(MeltColumn(t, Withdrawal), MeltColumn(t, Deposit), Withdrawal);
    PointTotalAppend(MeltColumn(t, Withdrawal), MeltColumn(t, Deposit), Deposit);
    MeltColumnTotal(t, Withdrawal, Withdrawal);
    MeltColumnTotal(t, Deposit, Withdrawal);
    MeltColumnTotal(t, Withdrawal, Deposit);
    MeltColumnTotal(t, Deposit, Deposit);
  }
}
