# HDFC bank statement analyzer — a Dafny model of the parsing and filtering core

The analyzer reads an HDFC-style CSV statement export. It finds the real
header row among the metadata rows and cuts out the transaction block below
it. It drops the asterisk trailer and blank rows, converts dates and amounts,
and numbers the rows. Then it applies the filters the user picked: transaction
type, minimum amounts, narration search and a date range. The page sums the
debits and credits, reports the latest closing balance, melts the amounts
into chart points, and lists the ten largest withdrawals and deposits.

The model covers that pipeline:

- `statement.dfy`: the data.
  - A raw cell is `Missing | Text(s)` and a grid is a sequence of rows of cells.
  - A transaction row (`Txn`) holds its serial number, the optional date and
    amounts, and its raw cells.
- `parser.dfy` (`utils/parser.py`):
  - the fixed header names;
  - the imperative header scan `FindHeaderRow`, with its reference function
    `HeaderRowOf`;
  - block slicing, sentinel truncation, empty-row removal, column lookup by
    label, coercion and numbering;
  - the seven filters;
  - the extractor itself, as a method `ExtractTransactions` proved equal to the
    reference function `Extract`, with properties of `Extract` proved as
    lemmas.
- `analyzer.dfy` (`utils/analyzer.py`): the summary figures and the
  zero-filled, melted chart series.
- `app.py`'s two pieces of logic, in `app.dfy`:
  - deriving the filter flags and minimums from the radio choice and the
    entered numbers;
  - the top-ten selection.
- `wrappers.dfy` and `sequences.dfy`: `Option`/`Result`, and the subsequence
  relation.

Parameters and abstractions:

- Date and number parsing are function parameters of type
  `string -> Option<int>`. `None` stands for a value that could not be read.
  Amounts are integers in the smallest currency unit, and dates are day
  numbers.
- Errors are values:
  - `HeaderNotFound` when no row is a header row;
  - `MissingColumn` / `DuplicateColumn` when a column selected by label is
    absent or repeated;
  - `SerialColumnExists` when the grid already has an `S.No` column;
  - `NoBalance` when the summary finds no closing balance.

Behaviour the model takes from the code:

- **Header match.** The header row is recognised on stripped cell text, by
  exact string comparison with no case folding. The columns are then selected
  by the header's raw cells. So a header cell `" Date "` is found by the scan,
  but selecting `Date` then fails, and the model returns `MissingColumn`.
- **Narration column.** It is selected only when the narration search runs.
  Without a search, a missing Narration column is not an error.
- **Both type flags.** Setting both flags does not give an empty table. A row
  with a non-zero withdrawal and a non-zero deposit passes both. See
  `Parser.SelectedRowsMeetSpec` and `Parser.BothFlagsKeepBothAmounts`.
- **Missing chart dates.** Filling the chart frame with 0 also fills a missing
  date, which then plots as 0. This is `Analyzer.PlotDate.ZeroFill`.
- **Sentinel rows.** A missing cell never counts as asterisks, because it
  stringifies to `nan`. A sentinel row therefore has only asterisk cells.
  All-missing rows are removed after truncation.

## Model

| member | source | states |
|---|---|---|
| Parser.FindHeaderRow | utils/parser.py:5-11 | returns the least index whose stripped cells contain every expected name; `None` exactly when no row does |
| Parser.HeaderRowFrom | utils/parser.py:7-11 | the first header row at or after a position, or `None` when no later row is one |
| Parser.LeadingSpaces | utils/parser.py:8 | the leading run `str.strip` removes: only white space, and stops before a non-space |
| Parser.TrailingStart | utils/parser.py:8 | the trailing run `str.strip` removes: only white space, and starts after a non-space |
| Parser.Strip | utils/parser.py:8 | the stripped text is the input with its leading and trailing white space removed: a slice of it, preceded and followed only by white space, that neither starts nor ends with white space |
| Parser.HeaderText | utils/parser.py:8 | a cell as the header scan reads it: a missing cell becomes the empty string, text is stripped |
| Parser.IsHeaderRow | utils/parser.py:8-9 | a row is a header row when every expected name is among its read cells |
| Parser.HeaderMatchIgnoresOrder | utils/parser.py:9 | header matching is by membership: a row holding all the cells of a header row, in any order and with extra or repeated cells, is a header row |
| Parser.HeaderNotFoundIffNoHeaderRow | utils/parser.py:11 | extraction fails with `HeaderNotFound` if and only if no row of the grid is a header row |
| Parser.HeaderRowKeptAfterLaterChange | utils/parser.py:7-10 | changing a row below the first header row does not change which row is found |
| Parser.SeparatorRowIgnored | utils/parser.py:17 | the row right after the header is never read: replacing it leaves the extraction unchanged |
| Parser.ExtractReadsHeaderAndBlock | utils/parser.py:15-18 | the extraction depends only on the header row and the rows from two below it on |
| Parser.Block | utils/parser.py:17 | the block is exactly the rows from two below the header row to the end, in order |
| Parser.IsStars | utils/parser.py:20 | a cell is asterisks when it is non-empty text made only of `*`; a missing cell never is |
| Parser.IsSentinelRow | utils/parser.py:20 | a sentinel row has only asterisk cells |
| Parser.TruncateAtSentinel | utils/parser.py:20-22 | the result is the longest prefix without a sentinel row; if shorter than the input, the next row is a sentinel |
| Parser.TrailerIgnored | utils/parser.py:20-22 | whatever follows the first sentinel row, including more sentinel rows, does not change the truncated block |
| Parser.AllMissing | utils/parser.py:24 | a row is empty when every one of its cells is missing |
| Parser.DropEmpty | utils/parser.py:24 | keeps exactly the rows that are not all-missing, every copy of each: a kept row occurs as often as in the input |
| Parser.DropEmptyKeepsOrder | utils/parser.py:24 | the rows kept are a subsequence of the input |
| Parser.FindColumn | utils/parser.py:27-30 | the first column at or after a position whose raw label is the name, or `None` when no later column has it |
| Parser.LookupColumn | utils/parser.py:27-30 | succeeds with the unique column labelled with the name; fails with `MissingColumn` iff no column has that label, and with `DuplicateColumn` iff two do |
| Parser.ResolveColumns | utils/parser.py:27-30 | succeeds iff each of the four labels is found exactly once, recording the columns carrying them; the lookups run in the order Date, Withdrawal Amt., Deposit Amt., Closing Balance, so a failing Date lookup decides the error, then a failing Withdrawal Amt. lookup |
| Parser.Coerce | utils/parser.py:27-30 | lenient conversion: a missing cell is absent, a text cell is whatever the parser reads from it, absent when it cannot |
| Parser.MakeTxn | utils/parser.py:27-30 | one converted row: Date through the date parser, the three amounts through the number parser, each from its resolved column |
| Parser.Tabulate | utils/parser.py:27-33 | converts every row in order and numbers it from 1 |
| Parser.TabulateColumns | utils/parser.py:27-30 | when the four labels resolved, every converted field of every row is the coerced cell under its own label in the header |
| Parser.Cleaned | utils/parser.py:16-34 | the table before filtering: the block cut at the sentinel, without empty rows, converted and numbered |
| Parser.CleanedColumns | utils/parser.py:16-30 | in the cleaned table, the date and the three amounts of every row come from the cells under the labels `Date`, `Withdrawal Amt.`, `Deposit Amt.` and `Closing Balance` of the header row, and every row is as wide as the header |
| Parser.CleanedRowsAreData | utils/parser.py:20-33 | every cleaned transaction has a serial of at least 1, is not all-missing and is not a sentinel row |
| Parser.CleanedRows | utils/parser.py:24-34 | the cleaned table has one row per surviving grid row, numbered 1..n, each keeping its raw cells |
| Parser.UnfilteredTable | utils/parser.py:16-34 | with no filter, the extracted table is the block cut at the sentinel and without empty rows, in order, with serials 1..n, and each row's date and amounts are the coerced cells under their labels in the header row |
| Parser.ExtractSucceeded | utils/parser.py:15-34 | a successful extraction had a header row, resolved its four converted columns and had no `S.No` column |
| Parser.Holds | utils/parser.py:37-56 | the meaning of each mask: a present non-zero deposit or withdrawal, a present amount at least the minimum, a case-insensitive narration match, a present date within a bound |
| Parser.SearchActive | utils/parser.py:50 | the narration search runs when a search text is given and is not empty |
| Parser.Criteria | utils/parser.py:37-56 | the masks of the requested filters, in the source's order; a filter that is not requested adds none |
| Parser.NarrationMatches | utils/parser.py:50-51 | a narration cell matches when it is text containing the search text, ignoring ASCII case; a missing cell never matches |
| Parser.Select | utils/parser.py:37-56 | a row is kept iff it is in the table and meets every criterion |
| Parser.SelectNothing | utils/parser.py:37-56 | with no criterion the table is unchanged |
| Parser.SelectFuse | utils/parser.py:37-56 | filtering by one list of criteria and then another equals filtering once by both |
| Parser.SelectIsSubsequence | utils/parser.py:37-56 | filtering keeps the relative order of the rows it keeps |
| Parser.SelectSame | utils/parser.py:37-56 | criteria that agree on every row select the same rows |
| Parser.SelectNarrows | utils/parser.py:37-56 | stronger criteria select a subsequence of what weaker criteria select |
| Parser.SelectKeepsSerialOrder | utils/parser.py:33-56 | filtering a table with increasing serials gives a table with increasing serials |
| Parser.SelectKeepsNumbering | utils/parser.py:33-56 | on a table numbered 1..n, every selected row sits at the position its serial names |
| Parser.AllHoldConcat | utils/parser.py:37-56 | passing two lists of criteria together is passing each |
| Parser.AllHoldPart | utils/parser.py:37-56 | a switched-off filter passes every row; a switched-on one passes the rows meeting it |
| Parser.FilterStep | utils/parser.py:37-56 | each conditional `df[mask]` step extends the criteria applied so far |
| Parser.CriteriaMeaning | utils/parser.py:37-56 | a row passes the active filters iff each requested condition holds: non-zero present deposit or withdrawal, present amount at least the minimum, case-insensitive narration match, present date within the inclusive bounds |
| Parser.SelectedRowsMeetSpec | utils/parser.py:37-56 | a row is in the filtered table iff it is in the table and meets every requested condition (both directions) |
| Parser.BothFlagsKeepBothAmounts | utils/parser.py:37-42 | with both type flags, every kept row has a non-zero withdrawal and a non-zero deposit |
| Parser.StricterPassesWeaker | utils/parser.py:37-56 | a row passing a stricter filter set passes the weaker one |
| Parser.StricterFiltersNarrow | utils/parser.py:37-56 | on the same grid, stricter filters give a subsequence of what weaker filters give |
| Parser.SerialsSurviveFiltering | utils/parser.py:33-56 | the filtered table is a subsequence of the unfiltered one with increasing serials, and each row's serial is its position in the unfiltered table, whatever the filters |
| Parser.Filtered | utils/parser.py:36-56 | fails exactly when a narration search is requested and the Narration column is missing or repeated; otherwise keeps only rows of the table |
| Parser.Extract | utils/parser.py:13-58 | every extracted transaction is a data row: numbered from 1, not all-missing and not a sentinel row |
| Parser.FilteredNothing | utils/parser.py:36-56 | with no filter requested the filter step keeps the whole table |
| Parser.ApplyFilters | utils/parser.py:36-56 | the seven conditional filter steps, run in the source's order, equal the reference filter step, including the Narration lookup error |
| Parser.ExtractTransactions | utils/parser.py:13-58 | the step-by-step extractor equals the reference definition `Extract` on every grid, filter set and parser |
| Parser.DepositsExample | utils/parser.py:37-45 | deposits-only with minimum 5000 over deposits 100, 6000, absent, 5000 keeps the 6000 and 5000 rows |
| Parser.NarrationExample | utils/parser.py:50-51 | the search "atm" matches the narration "ATM WDL 123" |
| Analyzer.SumPresent | utils/analyzer.py:4-5 | the column total, with absent amounts skipped as `Series.sum` skips NaN |
| Analyzer.SumPresentAppend | utils/analyzer.py:4-5 | the sum of present amounts adds up over consecutive parts of a table |
| Analyzer.SumPresentIgnoresAbsent | utils/analyzer.py:4-5 | a row with an absent amount does not change the total |
| Analyzer.SumPresentNonNegative | utils/analyzer.py:4-5 | a table whose present amounts are non-negative has a non-negative total |
| Analyzer.TotalsNonNegative | utils/analyzer.py:3-7 | with non-negative amounts, the debit and credit totals of the summary are non-negative |
| Analyzer.LastBalanceIndex | utils/analyzer.py:6 | the last position with a present closing balance; `None` exactly when no row has one |
| Analyzer.SummaryStats | utils/analyzer.py:3-7 | fails iff no row has a closing balance (the empty table included); otherwise the totals are the sums of present withdrawals and deposits, and the balance is that of the last row having one |
| Analyzer.PlotDateOf | utils/analyzer.py:10 | a present date plots as itself; a missing date is filled with 0 |
| Analyzer.MeltColumn | utils/analyzer.py:10-11 | the melted points of one amount column, one per row, absent amounts as 0 |
| Analyzer.ChartSeries | utils/analyzer.py:10-11 | the melted frame: all withdrawal points, then all deposit points |
| Analyzer.MeltColumnAt | utils/analyzer.py:10-11 | one point per row for a column, in table order, carrying the row's date and zero-filled amount |
| Analyzer.ChartSeriesShape | utils/analyzer.py:10-11 | the series has 2n points: the withdrawal point of every row in order, then the deposit point of every row, absent amounts as 0 |
| Analyzer.PointTotalAppend | utils/analyzer.py:11 | the total of the points of one type adds up over consecutive parts of a series |
| Analyzer.MeltColumnTotal | utils/analyzer.py:10-11 | the melted points of a column add up to its total |
| Analyzer.ChartMatchesTotals | utils/analyzer.py:3-11 | the withdrawal and deposit bars add up to the summary's debit and credit totals |
| App.DeriveParams | app.py:27-41 | each flag holds iff its own choice is picked, and never both; a minimum is passed only under the choices it applies to; under "All Transactions" an entered 0 becomes no minimum and any other value is kept; under "Only Deposits" the deposit minimum is passed even when 0 |
| App.ToFilterSpec | app.py:43-52 | hands the derived parameters, the search text and the dates to the extractor; the search runs exactly when the text is not empty |
| App.DefaultsShowEverything | app.py:27-41 | "All Transactions" with the inputs at their defaults keeps the whole table |
| App.OnlyDepositsRows | app.py:27-45 | under "Only Deposits" every shown row has a non-zero deposit of at least the entered minimum |
| App.OnlyWithdrawalsRows | app.py:27-48 | under "Only Withdrawals" every shown row has a non-zero withdrawal of at least the entered minimum |
| App.WithAmount | app.py:72 | keeps exactly the rows with a present amount in the column, each as often as the table has it |
| App.Insert | app.py:72 | inserting a row adds exactly that row |
| App.InsertMultiset | app.py:72 | insertion adds one copy of the row to the multiset |
| App.InsertDescending | app.py:72 | insertion into a sequence in decreasing amount order keeps it in decreasing order |
| App.SortDescending | app.py:72 | the rows reordered by decreasing amount, as many as the input |
| App.SortDescendingPermutes | app.py:72 | sorting is a permutation of the rows |
| App.SortDescendingSorted | app.py:72 | sorting puts the rows in decreasing order of amount |
| App.NLargest | app.py:72 | selects min(n, length) rows |
| App.NLargestSubMultiset | app.py:72 | the selection takes each row at most as often as the input has it |
| App.NLargestDescending | app.py:72 | the selection is in decreasing order of amount |
| App.NLargestDominates | app.py:72 | a row of the input left out of the selection has an amount no larger than any selected row |
| App.Top10 | app.py:72 | selects ten rows, or all the rows with a present amount when there are fewer |
| App.Top10Rows | app.py:72 | every selected row is a row of the table, with its multiplicity respected, and has a present amount |
| App.Top10Ordered | app.py:77 | the selected rows are listed largest amount first |
| App.Top10Dominates | app.py:77 | a row with a present amount that is not selected has an amount no larger than any selected row |

## Left out

- Everything Streamlit does is left out: the upload widget, the radio button, the text and date inputs, the layout, the metrics, the expander, the error display and the page set-up (app.py:1-25, line 42 and lines 53-83 outside lines 72 and 77). The model takes the choice, the entered numbers, the search text and the optional dates as plain inputs.
- login.py is not part of this model. It holds a hard-coded credential check and session-state plumbing.
- `pd.read_csv` byte parsing (utils/parser.py:14) is left out: the model starts from the grid of cells it produces, taken to be rectangular.
- `App.DeriveParams` takes the entered minimums as non-negative integers. It does not model the floating-point number inputs.
- The internals of `pd.to_datetime(..., dayfirst=True)` and `pd.to_numeric(..., errors='coerce')` (utils/parser.py:27-30) are left out. They are function parameters that answer `None` when they cannot read a value. The model parses each cell on its own: it does not capture that `pd.to_datetime` may infer one format from the column's first readable cell and then turn a cell in another format into NaT.
- Amounts are integers, so the model does not capture floating-point sums or NaN arithmetic.
- `Parser.NarrationMatches`: `str.contains` treats the search text as a regular expression. The model treats it as a plain substring, and lower-cases ASCII letters only, with no Unicode case folding.
- The plotly figure (utils/analyzer.py:12) is left out: only the frame handed to it is modelled.
- Both the selection of display columns (app.py:55, 73, 78) and the `.value` reading of the top-ten amounts are left out. `App.Top10Ordered` and `App.Top10Dominates` compare zero-filled amounts, which equal the amounts because every selected row has one (`App.Top10Rows`).
- `App.Top10`: pandas keeps the earlier row among equal amounts (`keep='first'`). The model's sort defines the same tie-breaking, but no contract states it.
