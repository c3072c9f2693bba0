/**
 * The statement extractor (utils/parser.py): finds the header row of an
 * HDFC-style statement grid, cuts out the transaction block, converts the
 * date and amount columns, numbers the rows and applies the caller's filters.
 */
module Parser {
  import opened Wrappers
  import opened Statement
  import opened Sequences

  /** The column names a header row must contain, in the statement's own order. */
  const ExpectedHeader: seq<string> :=
    ["Date", "Narration", "Chq./Ref.No.", "Value Dt", "Withdrawal Amt.", "Deposit Amt.", "Closing Balance"]

  datatype ParseError =
    | HeaderNotFound
    | MissingColumn(name: string)    // a column looked up by label is absent
    | DuplicateColumn(name: string)  // a column looked up by label occurs more than once
    | SerialColumnExists             // the grid already has an "S.No" column

  // ---------------------------------------------------------------------------
  // Header discovery
  // ---------------------------------------------------------------------------

  /** The characters Python's `str.strip()` removes. */
  const Whitespace: set<char> := {
    ' ', '\t', '\n', '\r', '\U{0B}', '\U{0C}', '\U{1C}', '\U{1D}', '\U{1E}', '\U{1F}',
    '\U{85}', '\U{A0}', '\U{1680}', '\U{2000}', '\U{2001}', '\U{2002}', '\U{2003}', '\U{2004}',
    '\U{2005}', '\U{2006}', '\U{2007}', '\U{2008}', '\U{2009}', '\U{200A}', '\U{2028}', '\U{2029}',
    '\U{202F}', '\U{205F}', '\U{3000}'}

  predicate IsSpace(c: char)
  {
    c in Whitespace
  }

  /** The number of white-space characters the string starts with. */
  function LeadingSpaces(s: string): (n: nat)
    ensures n <= |s|
    ensures forall i :: 0 <= i < n ==> IsSpace(s[i])
    ensures n == |s| || !IsSpace(s[n])
  {
    if s != [] && IsSpace(s[0]) then 1 + LeadingSpaces(s[1..]) else 0
  }

  /** The position where the string's trailing white space begins. */
  function TrailingStart(s: string): (n: nat)
    ensures n <= |s|
    ensures forall i :: n <= i < |s| ==> IsSpace(s[i])
    ensures n == 0 || !IsSpace(s[n - 1])
  {
    if s != [] && IsSpace(s[|s| - 1]) then TrailingStart(s[..|s| - 1]) else |s|
  }

  /** Drops leading white space. */
  function TrimStart(s: string): string
  {
    s[LeadingSpaces(s)..]
  }

  /** Drops trailing white space. */
  function TrimEnd(s: string): string
  {
    s[..TrailingStart(s)]
  }

  /** `str.strip()`: the result neither starts nor ends with white space, and a string that does neither is kept. */
  function Strip(s: string): (r: string)
    ensures |r| > 0 ==> !IsSpace(r[0]) && !IsSpace(r[|r| - 1])
    ensures (|s| == 0 || (!IsSpace(s[0]) && !IsSpace(s[|s| - 1]))) ==> r == s
    ensures exists i, j ::
              && 0 <= i <= j <= |s| && r == s[i..j]
              && (forall k :: 0 <= k < i ==> IsSpace(s[k]))
              && (forall k :: j <= k < |s| ==> IsSpace(s[k]))
  {
    var i := LeadingSpaces(s);
    var j := i + TrailingStart(s[i..]);
    assert forall k :: j <= k < |s| ==> s[k] == s[i..][k - i];
    assert TrimEnd(TrimStart(s)) == s[i..j];
    TrimEnd(TrimStart(s))
  }

  /** A cell as header discovery reads it: a missing cell becomes "", text is stripped. */
  function HeaderText(c: Cell): string
  {
    match c
    case Missing => ""
    case Text(s) => Strip(s)
  }

  function HeaderCells(row: Row): seq<string>
  {
    seq(|row|, j requires 0 <= j < |row| => HeaderText(row[j]))
  }

  /** Every expected name occurs among the given names, in any position. */
  predicate HasExpectedNames(names: seq<string>)
  {
    forall k :: 0 <= k < |ExpectedHeader| ==> ExpectedHeader[k] in names
  }

  /** Every expected name occurs among the row's cleaned cells. */
  predicate IsHeaderRow(row: Row)
  {
    HasExpectedNames(HeaderCells(row))
  }

  /** The first header row at or after `i`. */
  function HeaderRowFrom(raw: Grid, i: nat): (r: Option<nat>)
    requires i <= |raw|
    ensures r.Some? ==> i <= r.value < |raw| && IsHeaderRow(raw[r.value])
    ensures r.Some? ==> forall j :: i <= j < r.value ==> !IsHeaderRow(raw[j])
    ensures r.None? ==> forall j :: i <= j < |raw| ==> !IsHeaderRow(raw[j])
    decreases |raw| - i
  {
    if i == |raw| then None
    else if IsHeaderRow(raw[i]) then Some(i)
    else HeaderRowFrom(raw, i + 1)
  }

  /** The index of the first header row of the grid, if any. */
  function HeaderRowOf(raw: Grid): Option<nat>
  {
    HeaderRowFrom(raw, 0)
  }

  /** The top-to-bottom scan with early return. */
  method FindHeaderRow(raw: Grid) returns (r: Option<nat>)
    ensures r.Some? ==> r.value < |raw| && IsHeaderRow(raw[r.value])
    ensures r.Some? ==> forall j :: 0 <= j < r.value ==> !IsHeaderRow(raw[j])
    ensures r.None? ==> forall j :: 0 <= j < |raw| ==> !IsHeaderRow(raw[j])
  {
    for i := 0 to |raw|
      invariant forall j :: 0 <= j < i ==> !IsHeaderRow(raw[j])
    {
      var row := HeaderCells(raw[i]);
      if HasExpectedNames(row) {
        return Some(i);
      }
    }
    return None;
  }

  /**
   * Matching is by membership: a row holding every raw cell of a header row,
   * in any order and with any extra or repeated cells, is a header row too.
   */
  lemma HeaderMatchIgnoresOrder(header: Row, row: Row)
    requires IsHeaderRow(header)
    requires forall j :: 0 <= j < |header| ==> header[j] in row
    ensures IsHeaderRow(row)
  {
    forall k | 0 <= k < |ExpectedHeader|
      ensures ExpectedHeader[k] in HeaderCells(row)
    {
      var cells := HeaderCells(header);
      var j :| 0 <= j < |cells| && cells[j] == ExpectedHeader[k];
      var j' :| 0 <= j' < |row| && row[j'] == header[j];
      assert HeaderCells(row)[j'] == ExpectedHeader[k];
    }
  }

  // ---------------------------------------------------------------------------
  // Block slicing, trailer truncation, empty-row removal
  // ---------------------------------------------------------------------------

  /** The rows from two below the header on; the row right below the header is skipped unread. */
  function Block(raw: Grid, h: nat): (r: Grid)
    ensures forall i :: 0 <= i < |r| ==> h + 2 + i < |raw| && r[i] == raw[h + 2 + i]
    ensures h + 2 + |r| >= |raw|
  {
    if h + 2 <= |raw| then raw[h + 2..] else []
  }

  /** A cell that is one or more asterisks; a missing cell never is. */
  predicate IsStars(c: Cell)
  {
    c.Text? && |c.s| > 0 && forall i :: 0 <= i < |c.s| ==> c.s[i] == '*'
  }

  predicate IsSentinelRow(row: Row)
  {
    forall j :: 0 <= j < |row| ==> IsStars(row[j])
  }

  /** The rows strictly before the first sentinel row (all rows when there is none). */
  function TruncateAtSentinel(rows: Grid): (r: Grid)
    ensures |r| <= |rows| && r == rows[..|r|]
    ensures forall i :: 0 <= i < |r| ==> !IsSentinelRow(r[i])
    ensures |r| < |rows| ==> IsSentinelRow(rows[|r|])
  {
    if rows == [] then []
    else if IsSentinelRow(rows[0]) then []
    else [rows[0]] + TruncateAtSentinel(rows[1..])
  }

  /** Whatever follows the first sentinel row, further sentinels included, has no effect. */
  lemma {:induction false} TrailerIgnored(before: Grid, sentinel: Row, after: Grid)
    requires forall i :: 0 <= i < |before| ==> !IsSentinelRow(before[i])
    requires IsSentinelRow(sentinel)
    ensures TruncateAtSentinel(before + [sentinel] + after) == before
  {
    if before == [] {
      assert (before + [sentinel] + after)[0] == sentinel;
    } else {
      var rows := before + [sentinel] + after;
      assert rows[0] == before[0];
      assert rows[1..] == before[1..] + [sentinel] + after;
      TrailerIgnored(before[1..], sentinel, after);
      assert before == [before[0]] + before[1..];
    }
  }

  predicate AllMissing(row: Row)
  {
    forall j :: 0 <= j < |row| ==> row[j] == Missing
  }

  /** `dropna(how='all')`: removes the rows whose cells are all missing. */
  function DropEmpty(rows: Grid): (r: Grid)
    ensures forall row :: row in r <==> row in rows && !AllMissing(row)
    ensures forall row :: multiset(r)[row] == if AllMissing(row) then 0 else multiset(rows)[row]
  {
    if rows == [] then []
    else
      assert rows == [rows[0]] + rows[1..];
      (if AllMissing(rows[0]) then [] else [rows[0]]) + DropEmpty(rows[1..])
  }

  /** The surviving rows keep their relative order. */
  lemma {:induction false} DropEmptyKeepsOrder(rows: Grid)
    ensures IsSubsequence(DropEmpty(rows), rows)
  {
    if rows != [] {
      DropEmptyKeepsOrder(rows[1..]);
      var rest := DropEmpty(rows[1..]);
      if !AllMissing(rows[0]) {
        assert DropEmpty(rows) == [rows[0]] + rest;
        assert ([rows[0]] + rest)[1..] == rest;
      } else {
        assert DropEmpty(rows) == rest;
      }
    }
  }

  // ---------------------------------------------------------------------------
  // Column lookup, conversion and numbering
  // ---------------------------------------------------------------------------

  /** The first column at or after `from` whose raw label is exactly `name`. */
  function FindColumn(header: Row, name: string, from: nat): (r: Option<nat>)
    requires from <= |header|
    ensures r.Some? ==> from <= r.value < |header| && header[r.value] == Text(name)
    ensures r.Some? ==> forall j :: from <= j < r.value ==> header[j] != Text(name)
    ensures r.None? ==> forall j :: from <= j < |header| ==> header[j] != Text(name)
    decreases |header| - from
  {
    if from == |header| then None
    else if header[from] == Text(name) then Some(from)
    else FindColumn(header, name, from + 1)
  }

  /**
   * Selecting a column by label. Labels are the header's raw cells, not the
   * stripped text header discovery compared; a label that is absent or
   * repeated makes the selection fail.
   */
  function LookupColumn(header: Row, name: string): (r: Result<nat, ParseError>)
    ensures r.Success? ==> r.value < |header| && header[r.value] == Text(name)
    ensures r.Success? ==> forall j :: 0 <= j < |header| && j != r.value ==> header[j] != Text(name)
    ensures r == Failure(MissingColumn(name)) <==> forall j :: 0 <= j < |header| ==> header[j] != Text(name)
    ensures r == Failure(DuplicateColumn(name)) <==>
      exists i, j :: 0 <= i < j < |header| && header[i] == Text(name) && header[j] == Text(name)
    ensures r.Failure? ==> r.error in {MissingColumn(name), DuplicateColumn(name)}
  {
    match FindColumn(header, name, 0)
    case None => Failure(MissingColumn(name))
    case Some(j) =>
      if FindColumn(header, name, j + 1).Some? then Failure(DuplicateColumn(name)) else Success(j)
  }

  /** Positions of the columns that are converted. */
  datatype Columns = Columns(date: nat, withdrawal: nat, deposit: nat, balance: nat)

  /**
   * The four converted columns, looked up in the order Date, Withdrawal Amt.,
   * Deposit Amt., Closing Balance; the first lookup that fails decides the error.
   */
  function ResolveColumns(header: Row): (r: Result<Columns, ParseError>)
    ensures r.Success? <==>
      && LookupColumn(header, "Date").Success?
      && LookupColumn(header, "Withdrawal Amt.").Success?
      && LookupColumn(header, "Deposit Amt.").Success?
      && LookupColumn(header, "Closing Balance").Success?
    ensures r.Success? ==>
      && r.value.date < |header| && header[r.value.date] == Text("Date")
      && r.value.withdrawal < |header| && header[r.value.withdrawal] == Text("Withdrawal Amt.")
      && r.value.deposit < |header| && header[r.value.deposit] == Text("Deposit Amt.")
      && r.value.balance < |header| && header[r.value.balance] == Text("Closing Balance")
    ensures r.Failure? ==> r.error.MissingColumn? || r.error.DuplicateColumn?
    ensures LookupColumn(header, "Date").Failure? ==> r == Failure(LookupColumn(header, "Date").error)
    ensures LookupColumn(header, "Date").Success? && LookupColumn(header, "Withdrawal Amt.").Failure? ==>
      r == Failure(LookupColumn(header, "Withdrawal Amt.").error)
  {
    var date :- LookupColumn(header, "Date");
    var withdrawal :- LookupColumn(header, "Withdrawal Amt.");
    var deposit :- LookupColumn(header, "Deposit Amt.");
    var balance :- LookupColumn(header, "Closing Balance");
    Success(Columns(date, withdrawal, deposit, balance))
  }

  /**
   * Lenient conversion: a missing cell is absent, text goes to the parser,
   * which answers `None` for what it cannot read.
   */
  function Coerce(c: Cell, parse: string -> Option<int>): Option<int>
  {
    match c
    case Missing => None
    case Text(s) => parse(s)
  }

  function MakeTxn(serial: nat, row: Row, cols: Columns,
                   parseDate: string -> Option<int>, parseNumber: string -> Option<int>): Txn
  {
    Txn(serial,
        Coerce(CellAt(row, cols.date), parseDate),
        Coerce(CellAt(row, cols.withdrawal), parseNumber),
        Coerce(CellAt(row, cols.deposit), parseNumber),
        Coerce(CellAt(row, cols.balance), parseNumber),
        row)
  }

  /** Converts every row and numbers the rows 1..n in order. */
  function Tabulate(rows: Grid, cols: Columns,
                    parseDate: string -> Option<int>, parseNumber: string -> Option<int>): Table
  {
    seq(|rows|, k requires 0 <= k < |rows| => MakeTxn(k + 1, rows[k], cols, parseDate, parseNumber))
  }

  /** Row `k` of the table is the conversion of row `k` of the block, numbered `k + 1`. */
  lemma TabulateAt(rows: Grid, cols: Columns,
                   parseDate: string -> Option<int>, parseNumber: string -> Option<int>, k: nat)
    requires k < |rows|
    ensures |Tabulate(rows, cols, parseDate, parseNumber)| == |rows|
    ensures Tabulate(rows, cols, parseDate, parseNumber)[k] == MakeTxn(k + 1, rows[k], cols, parseDate, parseNumber)
  {
  }

  // ---------------------------------------------------------------------------
  // Filters
  // ---------------------------------------------------------------------------

  /** ASCII lower-casing, for case-insensitive comparison. */
  function LowerChar(c: char): char
  {
    if 'A' <= c <= 'Z' then (c as int + 32) as char else c
  }

  function Lower(s: string): string
  {
    seq(|s|, i requires 0 <= i < |s| => LowerChar(s[i]))
  }

  /** `needle` occurs in `hay` at some position. */
  predicate Contains(hay: string, needle: string)
    decreases |hay|
  {
    needle <= hay || (hay != [] && Contains(hay[1..], needle))
  }

  predicate NonZero(a: Option<int>)
  {
    a.Some? && a.value != 0
  }

  /** A comparison with an absent value is false. */
  predicate AtLeast(a: Option<int>, bound: int)
  {
    a.Some? && a.value >= bound
  }

  predicate AtMost(a: Option<int>, bound: int)
  {
    a.Some? && a.value <= bound
  }

  /** Case-insensitive search; a missing narration never matches. */
  predicate NarrationMatches(c: Cell, needle: string)
  {
    c.Text? && Contains(Lower(c.s), Lower(needle))
  }

  /** One row mask of the filter step. */
  datatype Criterion =
    | DepositsOnly
    | WithdrawalsOnly
    | MinDeposit(min: int)
    | MinWithdrawal(min: int)
    | NarrationContains(needle: string, column: nat)
    | OnOrAfter(start: int)
    | OnOrBefore(end: int)

  predicate Holds(c: Criterion, x: Txn)
  {
    match c
    case DepositsOnly => NonZero(x.deposit)
    case WithdrawalsOnly => NonZero(x.withdrawal)
    case MinDeposit(m) => AtLeast(x.deposit, m)
    case MinWithdrawal(m) => AtLeast(x.withdrawal, m)
    case NarrationContains(needle, column) => NarrationMatches(CellAt(x.cells, column), needle)
    case OnOrAfter(d) => AtLeast(x.date, d)
    case OnOrBefore(d) => AtMost(x.date, d)
  }

  predicate AllHold(cs: seq<Criterion>, x: Txn)
  {
    forall i :: 0 <= i < |cs| ==> Holds(cs[i], x)
  }

  /** The rows, in order, that meet every criterion; `Select(t, [c])` is one `df[mask]` step. */
  function Select(t: Table, cs: seq<Criterion>): (r: Table)
    ensures forall x :: x in r <==> x in t && AllHold(cs, x)
  {
    if t == [] then []
    else (if AllHold(cs, t[0]) then [t[0]] else []) + Select(t[1..], cs)
  }

  lemma {:induction false} SelectNothing(t: Table)
    ensures Select(t, []) == t
  {
    if t != [] {
      SelectNothing(t[1..]);
      assert t == [t[0]] + t[1..];
    }
  }

  /** Filtering in two steps is filtering once by both sets of criteria. */
  lemma {:induction false} SelectFuse(t: Table, a: seq<Criterion>, b: seq<Criterion>)
    ensures Select(Select(t, a), b) == Select(t, a + b)
  {
    if t != [] {
      SelectFuse(t[1..], a, b);
      AllHoldConcat(a, b, t[0]);
      var rest := Select(t[1..], a);
      if AllHold(a, t[0]) {
        assert Select(t, a) == [t[0]] + rest;
        assert ([t[0]] + rest)[1..] == rest;
      } else {
        assert Select(t, a) == rest;
      }
    }
  }

  /** Filtering keeps the relative order of the rows it keeps. */
  lemma {:induction false} SelectIsSubsequence(t: Table, cs: seq<Criterion>)
    ensures IsSubsequence(Select(t, cs), t)
  {
    if t != [] {
      SelectIsSubsequence(t[1..], cs);
      var rest := Select(t[1..], cs);
      if AllHold(cs, t[0]) {
        assert Select(t, cs) == [t[0]] + rest;
        assert ([t[0]] + rest)[1..] == rest;
      } else {
        assert Select(t, cs) == rest;
      }
    }
  }

  /** Stronger criteria select a subsequence of what weaker criteria select. */
  lemma SelectNarrows(t: Table, weak: seq<Criterion>, strong: seq<Criterion>)
    requires forall x :: x in t && AllHold(strong, x) ==> AllHold(weak, x)
    ensures IsSubsequence(Select(t, strong), Select(t, weak))
  {
    SelectFuse(t, weak, strong);
    SelectSame(t, weak + strong, strong);
    SelectIsSubsequence(Select(t, weak), strong);
  }

  /** Criteria that agree on every row of the table select the same rows. */
  lemma {:induction false} SelectSame(t: Table, a: seq<Criterion>, b: seq<Criterion>)
    requires forall x :: x in t ==> (AllHold(a, x) <==> AllHold(b, x))
    ensures Select(t, a) == Select(t, b)
  {
    if t != [] {
      SelectSame(t[1..], a, b);
    }
  }

  /** Serial numbers in increasing order stay so under filtering. */
  predicate SerialsIncrease(t: Table)
  {
    forall i, j :: 0 <= i < j < |t| ==> t[i].serial < t[j].serial
  }

  lemma {:induction false} SelectKeepsSerialOrder(t: Table, cs: seq<Criterion>)
    requires SerialsIncrease(t)
    ensures SerialsIncrease(Select(t, cs))
  {
    if t != [] {
      SelectKeepsSerialOrder(t[1..], cs);
      var rest := Select(t[1..], cs);
      if AllHold(cs, t[0]) {
        forall j | 0 <= j < |rest| ensures t[0].serial < rest[j].serial {
          assert rest[j] in t[1..];
        }
      }
    }
  }

  /** The caller's filter parameters. */
  datatype FilterSpec = FilterSpec(
    depositsOnly: bool,
    withdrawalsOnly: bool,
    minDeposit: Option<int>,
    minWithdrawal: Option<int>,
    narration: Option<string>,
    startDate: Option<int>,
    endDate: Option<int>)

  /** No filter at all: the defaults of the extractor. */
  const NoFilters := FilterSpec(false, false, None, None, None, None, None)

  /** The narration search runs only for a non-empty search text. */
  predicate SearchActive(spec: FilterSpec)
  {
    spec.narration.Some? && spec.narration.value != ""
  }

  /** The one-criterion list of a filter that is switched on, the empty list otherwise. */
  function Part(active: bool, c: Criterion): seq<Criterion>
  {
    if active then [c] else []
  }

  /** The active filters, in the order they are applied. */
  function Criteria(spec: FilterSpec, narrationColumn: nat): seq<Criterion>
  {
    Part(spec.depositsOnly, DepositsOnly) +
    Part(spec.withdrawalsOnly, WithdrawalsOnly) +
    Part(spec.minDeposit.Some?, MinDeposit(spec.minDeposit.GetOr(0))) +
    Part(spec.minWithdrawal.Some?, MinWithdrawal(spec.minWithdrawal.GetOr(0))) +
    Part(SearchActive(spec), NarrationContains(spec.narration.GetOr(""), narrationColumn)) +
    Part(spec.startDate.Some?, OnOrAfter(spec.startDate.GetOr(0))) +
    Part(spec.endDate.Some?, OnOrBefore(spec.endDate.GetOr(0)))
  }

  lemma AllHoldPart(active: bool, c: Criterion, x: Txn)
    ensures AllHold(Part(active, c), x) <==> (active ==> Holds(c, x))
  {
    if active {
      assert Part(active, c)[0] == c;
    }
  }

  lemma AllHoldConcat(a: seq<Criterion>, b: seq<Criterion>, x: Txn)
    ensures AllHold(a + b, x) <==> AllHold(a, x) && AllHold(b, x)
  {
    if AllHold(a, x) && AllHold(b, x) {
      forall i | 0 <= i < |a + b| ensures Holds((a + b)[i], x) {
        if i >= |a| { assert (a + b)[i] == b[i - |a|]; }
      }
    }
    if AllHold(a + b, x) {
      forall i | 0 <= i < |a| ensures Holds(a[i], x) {
        assert (a + b)[i] == a[i];
      }
      forall i | 0 <= i < |b| ensures Holds(b[i], x) {
        assert (a + b)[|a| + i] == b[i];
      }
    }
  }

  /** One filter step of the extractor, switched on or off, extends the criteria applied so far. */
  lemma FilterStep(t: Table, applied: seq<Criterion>, before: Table, after: Table, active: bool, c: Criterion)
    requires before == Select(t, applied)
    requires after == if active then Select(before, [c]) else before
    ensures after == Select(t, applied + Part(active, c))
  {
    SelectFuse(t, applied, Part(active, c));
    if !active {
      assert applied + Part(active, c) == applied;
    }
  }

  /** What a row must satisfy to pass the filters of `spec`, each filter stated on its own. */
  lemma CriteriaMeaning(spec: FilterSpec, narrationColumn: nat, x: Txn)
    ensures AllHold(Criteria(spec, narrationColumn), x) <==>
      (spec.depositsOnly ==> x.deposit.Some? && x.deposit.value != 0) &&
      (spec.withdrawalsOnly ==> x.withdrawal.Some? && x.withdrawal.value != 0) &&
      (spec.minDeposit.Some? ==> x.deposit.Some? && x.deposit.value >= spec.minDeposit.value) &&
      (spec.minWithdrawal.Some? ==> x.withdrawal.Some? && x.withdrawal.value >= spec.minWithdrawal.value) &&
      (SearchActive(spec) ==> NarrationMatches(CellAt(x.cells, narrationColumn), spec.narration.value)) &&
      (spec.startDate.Some? ==> x.date.Some? && x.date.value >= spec.startDate.value) &&
      (spec.endDate.Some? ==> x.date.Some? && x.date.value <= spec.endDate.value)
  {
    var p1 := Part(spec.depositsOnly, DepositsOnly);
    var p2 := Part(spec.withdrawalsOnly, WithdrawalsOnly);
    var p3 := Part(spec.minDeposit.Some?, MinDeposit(spec.minDeposit.GetOr(0)));
    var p4 := Part(spec.minWithdrawal.Some?, MinWithdrawal(spec.minWithdrawal.GetOr(0)));
    var p5 := Part(SearchActive(spec), NarrationContains(spec.narration.GetOr(""), narrationColumn));
    var p6 := Part(spec.startDate.Some?, OnOrAfter(spec.startDate.GetOr(0)));
    var p7 := Part(spec.endDate.Some?, OnOrBefore(spec.endDate.GetOr(0)));
    AllHoldConcat(p1 + p2 + p3 + p4 + p5 + p6, p7, x);
    AllHoldConcat(p1 + p2 + p3 + p4 + p5, p6, x);
    AllHoldConcat(p1 + p2 + p3 + p4, p5, x);
    AllHoldConcat(p1 + p2 + p3, p4, x);
    AllHoldConcat(p1 + p2, p3, x);
    AllHoldConcat(p1, p2, x);
    AllHoldPart(spec.depositsOnly, DepositsOnly, x);
    AllHoldPart(spec.withdrawalsOnly, WithdrawalsOnly, x);
    AllHoldPart(spec.minDeposit.Some?, MinDeposit(spec.minDeposit.GetOr(0)), x);
    AllHoldPart(spec.minWithdrawal.Some?, MinWithdrawal(spec.minWithdrawal.GetOr(0)), x);
    AllHoldPart(SearchActive(spec), NarrationContains(spec.narration.GetOr(""), narrationColumn), x);
    AllHoldPart(spec.startDate.Some?, OnOrAfter(spec.startDate.GetOr(0)), x);
    AllHoldPart(spec.endDate.Some?, OnOrBefore(spec.endDate.GetOr(0)), x);
  }

  /** The rows the filters of `spec` keep are exactly the rows of `t` that pass them. */
  lemma SelectedRowsMeetSpec(t: Table, spec: FilterSpec, narrationColumn: nat, x: Txn)
    ensures x in Select(t, Criteria(spec, narrationColumn)) <==>
      x in t &&
      (spec.depositsOnly ==> x.deposit.Some? && x.deposit.value != 0) &&
      (spec.withdrawalsOnly ==> x.withdrawal.Some? && x.withdrawal.value != 0) &&
      (spec.minDeposit.Some? ==> x.deposit.Some? && x.deposit.value >= spec.minDeposit.value) &&
      (spec.minWithdrawal.Some? ==> x.withdrawal.Some? && x.withdrawal.value >= spec.minWithdrawal.value) &&
      (SearchActive(spec) ==> NarrationMatches(CellAt(x.cells, narrationColumn), spec.narration.value)) &&
      (spec.startDate.Some? ==> x.date.Some? && x.date.value >= spec.startDate.value) &&
      (spec.endDate.Some? ==> x.date.Some? && x.date.value <= spec.endDate.value)
  {
    CriteriaMeaning(spec, narrationColumn, x);
  }

  /** Both type flags together keep only rows with a non-zero withdrawal and a non-zero deposit. */
  lemma BothFlagsKeepBothAmounts(t: Table, spec: FilterSpec, narrationColumn: nat, x: Txn)
    requires spec.depositsOnly && spec.withdrawalsOnly
    requires x in Select(t, Criteria(spec, narrationColumn))
    ensures x.deposit.Some? && x.deposit.value != 0 && x.withdrawal.Some? && x.withdrawal.value != 0
  {
    SelectedRowsMeetSpec(t, spec, narrationColumn, x);
  }

  /**
   * `strong` asks at least what `weak` asks: every flag of `weak` is set in
   * `strong`, its minimums and start date are no lower, its end date no later,
   * and it searches for the same text whenever `weak` searches.
   */
  predicate Stricter(strong: FilterSpec, weak: FilterSpec)
  {
    (weak.depositsOnly ==> strong.depositsOnly) &&
    (weak.withdrawalsOnly ==> strong.withdrawalsOnly) &&
    (weak.minDeposit.Some? ==> strong.minDeposit.Some? && strong.minDeposit.value >= weak.minDeposit.value) &&
    (weak.minWithdrawal.Some? ==> strong.minWithdrawal.Some? && strong.minWithdrawal.value >= weak.minWithdrawal.value) &&
    (SearchActive(weak) ==> strong.narration == weak.narration) &&
    (weak.startDate.Some? ==> strong.startDate.Some? && strong.startDate.value >= weak.startDate.value) &&
    (weak.endDate.Some? ==> strong.endDate.Some? && strong.endDate.value <= weak.endDate.value)
  }

  /** A row that passes stricter filters passes the weaker ones. */
  lemma StricterPassesWeaker(strong: FilterSpec, weak: FilterSpec, column: nat, weakColumn: nat, x: Txn)
    requires Stricter(strong, weak)
    requires SearchActive(weak) ==> weakColumn == column
    requires AllHold(Criteria(strong, column), x)
    ensures AllHold(Criteria(weak, weakColumn), x)
  {
    CriteriaMeaning(strong, column, x);
    CriteriaMeaning(weak, weakColumn, x);
  }

  // ---------------------------------------------------------------------------
  // The whole extractor
  // ---------------------------------------------------------------------------

  /** The structurally cleaned, converted and numbered table below header row `h`. */
  function Cleaned(raw: Grid, h: nat, cols: Columns,
                   parseDate: string -> Option<int>, parseNumber: string -> Option<int>): Table
  {
    Tabulate(DropEmpty(TruncateAtSentinel(Block(raw, h))), cols, parseDate, parseNumber)
  }

  /** Every cleaned transaction is a data row: numbered from 1, not all missing, not a sentinel. */
  lemma CleanedRowsAreData(raw: Grid, h: nat, cols: Columns,
                           parseDate: string -> Option<int>, parseNumber: string -> Option<int>)
    ensures forall x :: x in Cleaned(raw, h, cols, parseDate, parseNumber) ==>
      x.serial >= 1 && !AllMissing(x.cells) && !IsSentinelRow(x.cells)
  {
    var truncated := TruncateAtSentinel(Block(raw, h));
    var rows := DropEmpty(truncated);
    var t := Cleaned(raw, h, cols, parseDate, parseNumber);
    forall x | x in t
      ensures x.serial >= 1 && !AllMissing(x.cells) && !IsSentinelRow(x.cells)
    {
      var k :| 0 <= k < |t| && t[k] == x;
      TabulateAt(rows, cols, parseDate, parseNumber, k);
      assert rows[k] in rows;
      var i :| 0 <= i < |truncated| && truncated[i] == rows[k];
    }
  }

  /**
   * The filter step on table `t` whose columns are labelled by `header`; the
   * Narration column is looked up only when the search runs.
   */
  function Filtered(t: Table, header: Row, spec: FilterSpec): (r: Result<Table, ParseError>)
    ensures r.Failure? <==> SearchActive(spec) && LookupColumn(header, "Narration").Failure?
    ensures r.Failure? ==> r.error in {MissingColumn("Narration"), DuplicateColumn("Narration")}
    ensures r.Success? ==> forall x :: x in r.value ==> x in t
  {
    if SearchActive(spec) then
      var narration :- LookupColumn(header, "Narration");
      Success(Select(t, Criteria(spec, narration)))
    else
      Success(Select(t, Criteria(spec, 0)))
  }

  /** Reference definition of the extractor on an already-read grid. */
  function Extract(raw: Grid, spec: FilterSpec,
                   parseDate: string -> Option<int>, parseNumber: string -> Option<int>): (r: Result<Table, ParseError>)
    requires Rectangular(raw)
    ensures r.Success? ==> forall x :: x in r.value ==> x.serial >= 1 && !AllMissing(x.cells) && !IsSentinelRow(x.cells)
  {
    match HeaderRowOf(raw)
    case None => Failure(HeaderNotFound)
    case Some(h) =>
      var header := raw[h];
      var cols :- ResolveColumns(header);
      if Text("S.No") in header then Failure(SerialColumnExists)
      else
        CleanedRowsAreData(raw, h, cols, parseDate, parseNumber);
        Filtered(Cleaned(raw, h, cols, parseDate, parseNumber), header, spec)
  }

  /** The extractor as the source runs it: one step after another on a local table. */
  method ExtractTransactions(raw: Grid, spec: FilterSpec,
                             parseDate: string -> Option<int>, parseNumber: string -> Option<int>)
    returns (r: Result<Table, ParseError>)
    requires Rectangular(raw)
    ensures r == Extract(raw, spec, parseDate, parseNumber)
  {
    var found := FindHeaderRow(raw);
    if found.None? {
      return Failure(HeaderNotFound);
    }
    var h := found.value;
    assert HeaderRowOf(raw) == Some(h);
    var header := raw[h];
    var rows := Block(raw, h);
    rows := TruncateAtSentinel(rows);
    rows := DropEmpty(rows);
    var date :- LookupColumn(header, "Date");
    var withdrawal :- LookupColumn(header, "Withdrawal Amt.");
    var deposit :- LookupColumn(header, "Deposit Amt.");
    var balance :- LookupColumn(header, "Closing Balance");
    if Text("S.No") in header {
      return Failure(SerialColumnExists);
    }
    var df := Tabulate(rows, Columns(date, withdrawal, deposit, balance), parseDate, parseNumber);
    assert ResolveColumns(header) == Success(Columns(date, withdrawal, deposit, balance));

    r := ApplyFilters(df, header, spec);
  }

  /** The filters, applied one after another in the source's order, each only when requested. */
  method ApplyFilters(table: Table, header: Row, spec: FilterSpec) returns (r: Result<Table, ParseError>)
    ensures r == Filtered(table, header, spec)
  {
    var df := table;
    ghost var t := df;
    ghost var applied: seq<Criterion> := [];
    ghost var before := df;
    SelectNothing(t);
    var narration := 0;
    if spec.depositsOnly {
      df := Select(df, [DepositsOnly]);
    }
    FilterStep(t, applied, before, df, spec.depositsOnly, DepositsOnly);
    applied, before := applied + Part(spec.depositsOnly, DepositsOnly), df;
    if spec.withdrawalsOnly {
      df := Select(df, [WithdrawalsOnly]);
    }
    FilterStep(t, applied, before, df, spec.withdrawalsOnly, WithdrawalsOnly);
    applied, before := applied + Part(spec.withdrawalsOnly, WithdrawalsOnly), df;
    if spec.minDeposit.Some? {
      df := Select(df, [MinDeposit(spec.minDeposit.value)]);
    }
    FilterStep(t, applied, before, df, spec.minDeposit.Some?, MinDeposit(spec.minDeposit.GetOr(0)));
    applied, before := applied + Part(spec.minDeposit.Some?, MinDeposit(spec.minDeposit.GetOr(0))), df;
    if spec.minWithdrawal.Some? {
      df := Select(df, [MinWithdrawal(spec.minWithdrawal.value)]);
    }
    FilterStep(t, applied, before, df, spec.minWithdrawal.Some?, MinWithdrawal(spec.minWithdrawal.GetOr(0)));
    applied, before := applied + Part(spec.minWithdrawal.Some?, MinWithdrawal(spec.minWithdrawal.GetOr(0))), df;
    if SearchActive(spec) {
      narration :- LookupColumn(header, "Narration");
      df := Select(df, [NarrationContains(spec.narration.value, narration)]);
    }
    FilterStep(t, applied, before, df, SearchActive(spec), NarrationContains(spec.narration.GetOr(""), narration));
    applied, before := applied + Part(SearchActive(spec), NarrationContains(spec.narration.GetOr(""), narration)), df;
    if spec.startDate.Some? {
      df := Select(df, [OnOrAfter(spec.startDate.value)]);
    }
    FilterStep(t, applied, before, df, spec.startDate.Some?, OnOrAfter(spec.startDate.GetOr(0)));
    applied, before := applied + Part(spec.startDate.Some?, OnOrAfter(spec.startDate.GetOr(0))), df;
    if spec.endDate.Some? {
      df := Select(df, [OnOrBefore(spec.endDate.value)]);
    }
    FilterStep(t, applied, before, df, spec.endDate.Some?, OnOrBefore(spec.endDate.GetOr(0)));
    applied := applied + Part(spec.endDate.Some?, OnOrBefore(spec.endDate.GetOr(0)));
    assert [] + Part(spec.depositsOnly, DepositsOnly) == Part(spec.depositsOnly, DepositsOnly);
    assert applied == Criteria(spec, narration);
    return Success(df);
  }

  // ---------------------------------------------------------------------------
  // Properties of the whole extractor
  // ---------------------------------------------------------------------------

  /** With no filter requested the filter step keeps the whole table. */
  lemma FilteredNothing(t: Table, header: Row)
    ensures Filtered(t, header, NoFilters) == Success(t)
  {
    assert Criteria(NoFilters, 0) == [];
    SelectNothing(t);
  }

  /** What a successful extraction went through. */
  lemma ExtractSucceeded(raw: Grid, h: nat, spec: FilterSpec, r: Table,
                         parseDate: string -> Option<int>, parseNumber: string -> Option<int>)
    requires Rectangular(raw)
    requires Extract(raw, spec, parseDate, parseNumber) == Success(r)
    requires HeaderRowOf(raw) == Some(h)
    ensures h < |raw| && ResolveColumns(raw[h]).Success? && Text("S.No") !in raw[h]
    ensures Filtered(Cleaned(raw, h, ResolveColumns(raw[h]).value, parseDate, parseNumber), raw[h], spec) == Success(r)
  {
  }

  /** The cleaned table numbers its rows 1..n and keeps their raw cells. */
  lemma CleanedRows(raw: Grid, h: nat, cols: Columns,
                    parseDate: string -> Option<int>, parseNumber: string -> Option<int>)
    ensures var t := Cleaned(raw, h, cols, parseDate, parseNumber);
      var rows := DropEmpty(TruncateAtSentinel(Block(raw, h)));
      |t| == |rows| && forall k :: 0 <= k < |t| ==> t[k].serial == k + 1 && t[k].cells == rows[k]
  {
    var rows := DropEmpty(TruncateAtSentinel(Block(raw, h)));
    forall k | 0 <= k < |rows|
      ensures Tabulate(rows, cols, parseDate, parseNumber)[k] == MakeTxn(k + 1, rows[k], cols, parseDate, parseNumber)
    {
      TabulateAt(rows, cols, parseDate, parseNumber, k);
    }
  }

  /** A successful column resolution found each of the four labels exactly once, at the position it records. */
  lemma ResolvedLabels(header: Row, cols: Columns)
    requires ResolveColumns(header) == Success(cols)
    ensures LookupColumn(header, "Date") == Success(cols.date)
    ensures LookupColumn(header, "Withdrawal Amt.") == Success(cols.withdrawal)
    ensures LookupColumn(header, "Deposit Amt.") == Success(cols.deposit)
    ensures LookupColumn(header, "Closing Balance") == Success(cols.balance)
  {
  }

  /** Every row that survives cleaning is a row of the grid below the header, so it is as wide as the header. */
  lemma CleanedRowsWidth(raw: Grid, h: nat, rows: Grid)
    requires Rectangular(raw) && h < |raw|
    requires rows == DropEmpty(TruncateAtSentinel(Block(raw, h)))
    ensures forall k :: 0 <= k < |rows| ==> |rows[k]| == |raw[h]|
  {
    var block := Block(raw, h);
    var truncated := TruncateAtSentinel(block);
    forall k | 0 <= k < |rows|
      ensures |rows[k]| == |raw[h]|
    {
      assert rows[k] in rows;
      var i :| 0 <= i < |truncated| && truncated[i] == rows[k];
      assert block[i] == rows[k];
      assert raw[h + 2 + i] == rows[k];
    }
  }

  /**
   * Table `t` converts `rows`, whose columns are labelled by `header`: every
   * row is as wide as the header, and each converted field comes from the cell
   * under its own label, Date through the date parser and the three amounts
   * through the number parser.
   */
  predicate FieldsUnderLabels(t: Table, rows: Grid, header: Row,
                              parseDate: string -> Option<int>, parseNumber: string -> Option<int>)
  {
    && |t| == |rows|
    && (forall k :: 0 <= k < |rows| ==> |rows[k]| == |header|)
    && (forall k, j :: 0 <= k < |t| && 0 <= j < |header| && header[j] == Text("Date") ==>
          t[k].date == Coerce(rows[k][j], parseDate))
    && (forall k, j :: 0 <= k < |t| && 0 <= j < |header| && header[j] == Text("Withdrawal Amt.") ==>
          t[k].withdrawal == Coerce(rows[k][j], parseNumber))
    && (forall k, j :: 0 <= k < |t| && 0 <= j < |header| && header[j] == Text("Deposit Amt.") ==>
          t[k].deposit == Coerce(rows[k][j], parseNumber))
    && (forall k, j :: 0 <= k < |t| && 0 <= j < |header| && header[j] == Text("Closing Balance") ==>
          t[k].balance == Coerce(rows[k][j], parseNumber))
  }

  /** Converting rows as wide as a header whose four labels resolved reads each field under its label. */
  lemma {:induction false} TabulateColumns(rows: Grid, header: Row, cols: Columns,
                                           parseDate: string -> Option<int>, parseNumber: string -> Option<int>)
    requires ResolveColumns(header) == Success(cols)
    requires forall k :: 0 <= k < |rows| ==> |rows[k]| == |header|
    ensures FieldsUnderLabels(Tabulate(rows, cols, parseDate, parseNumber), rows, header, parseDate, parseNumber)
  {
    var t := Tabulate(rows, cols, parseDate, parseNumber);
    ResolvedLabels(header, cols);
    forall k, j | 0 <= k < |t| && 0 <= j < |header|
      ensures t[k] == MakeTxn(k + 1, rows[k], cols, parseDate, parseNumber)
      ensures header[j] == Text("Date") ==> j == cols.date
      ensures header[j] == Text("Withdrawal Amt.") ==> j == cols.withdrawal
      ensures header[j] == Text("Deposit Amt.") ==> j == cols.deposit
      ensures header[j] == Text("Closing Balance") ==> j == cols.balance
    {
      TabulateAt(rows, cols, parseDate, parseNumber, k);
    }
  }

  /** The cleaned table reads each converted field from the cell under its own label in the header row. */
  lemma {:induction false} CleanedColumns(raw: Grid, h: nat, cols: Columns,
                                          parseDate: string -> Option<int>, parseNumber: string -> Option<int>)
    requires Rectangular(raw) && h < |raw|
    requires ResolveColumns(raw[h]) == Success(cols)
    ensures FieldsUnderLabels(Cleaned(raw, h, cols, parseDate, parseNumber),
                              DropEmpty(TruncateAtSentinel(Block(raw, h))), raw[h], parseDate, parseNumber)
  {
    var rows := DropEmpty(TruncateAtSentinel(Block(raw, h)));
    assert Cleaned(raw, h, cols, parseDate, parseNumber) == Tabulate(rows, cols, parseDate, parseNumber);
    CleanedRowsWidth(raw, h, rows);
    TabulateColumns(rows, raw[h], cols, parseDate, parseNumber);
  }

  /** The extractor fails for want of a header exactly when no row of the grid is a header row. */
  lemma HeaderNotFoundIffNoHeaderRow(raw: Grid, spec: FilterSpec,
                                     parseDate: string -> Option<int>, parseNumber: string -> Option<int>)
    requires Rectangular(raw)
    ensures Extract(raw, spec, parseDate, parseNumber) == Failure(HeaderNotFound) <==>
      forall i :: 0 <= i < |raw| ==> !IsHeaderRow(raw[i])
  {
    match HeaderRowOf(raw)
    case None =>
    case Some(h) =>
      assert IsHeaderRow(raw[h]);
      var cols := ResolveColumns(raw[h]);
      if cols.Success? && Text("S.No") !in raw[h] {
        var t := Cleaned(raw, h, cols.value, parseDate, parseNumber);
        assert Extract(raw, spec, parseDate, parseNumber) == Filtered(t, raw[h], spec);
      }
  }

  /**
   * With no filter, the table is the block below the header cut at the first
   * sentinel and without all-missing rows, in order, numbered 1..n.
   */
  lemma UnfilteredTable(raw: Grid, h: nat, base: Table,
                        parseDate: string -> Option<int>, parseNumber: string -> Option<int>)
    requires Rectangular(raw)
    requires HeaderRowOf(raw) == Some(h)
    requires Extract(raw, NoFilters, parseDate, parseNumber) == Success(base)
    ensures var rows := DropEmpty(TruncateAtSentinel(Block(raw, h)));
      |base| == |rows| && forall k :: 0 <= k < |base| ==> base[k].serial == k + 1 && base[k].cells == rows[k]
    ensures h < |raw| &&
      FieldsUnderLabels(base, DropEmpty(TruncateAtSentinel(Block(raw, h))), raw[h], parseDate, parseNumber)
  {
    ExtractSucceeded(raw, h, NoFilters, base, parseDate, parseNumber);
    var cols := ResolveColumns(raw[h]).value;
    var t := Cleaned(raw, h, cols, parseDate, parseNumber);
    FilteredNothing(t, raw[h]);
    CleanedRows(raw, h, cols, parseDate, parseNumber);
    CleanedColumns(raw, h, cols, parseDate, parseNumber);
  }

  /**
   * Serial numbers are assigned before filtering and never renumbered: the
   * filtered table is a subsequence of the unfiltered one, in increasing
   * serial order, and a row's serial is its position in the unfiltered table,
   * whatever the filters.
   */
  lemma SerialsSurviveFiltering(raw: Grid, h: nat, spec: FilterSpec, r: Table,
                                parseDate: string -> Option<int>, parseNumber: string -> Option<int>)
    requires Rectangular(raw)
    requires HeaderRowOf(raw) == Some(h)
    requires Extract(raw, spec, parseDate, parseNumber) == Success(r)
    ensures Extract(raw, NoFilters, parseDate, parseNumber).Success?
    ensures var base := Extract(raw, NoFilters, parseDate, parseNumber).value;
      IsSubsequence(r, base) && SerialsIncrease(r) &&
      forall x :: x in r ==> 1 <= x.serial <= |base| && base[x.serial - 1] == x
  {
    ExtractSucceeded(raw, h, spec, r, parseDate, parseNumber);
    var header := raw[h];
    var t := Cleaned(raw, h, ResolveColumns(header).value, parseDate, parseNumber);
    FilteredNothing(t, header);
    assert Extract(raw, NoFilters, parseDate, parseNumber) == Success(t);
    CleanedRows(raw, h, ResolveColumns(header).value, parseDate, parseNumber);
    var n := if SearchActive(spec) then LookupColumn(header, "Narration").value else 0;
    assert r == Select(t, Criteria(spec, n));
    SelectKeepsNumbering(t, Criteria(spec, n));
  }

  /** Filtering a table numbered 1..n keeps each selected row at the position its serial names. */
  lemma SelectKeepsNumbering(t: Table, cs: seq<Criterion>)
    requires forall k :: 0 <= k < |t| ==> t[k].serial == k + 1
    ensures var r := Select(t, cs);
      IsSubsequence(r, t) && SerialsIncrease(r) &&
      forall x :: x in r ==> 1 <= x.serial <= |t| && t[x.serial - 1] == x
  {
    SelectIsSubsequence(t, cs);
    SelectKeepsSerialOrder(t, cs);
    forall x | x in Select(t, cs) ensures 1 <= x.serial <= |t| && t[x.serial - 1] == x {
      var k :| 0 <= k < |t| && t[k] == x;
    }
  }

  /** Stricter filters give a subsequence of what weaker filters give, on the same grid. */
  lemma StricterFiltersNarrow(raw: Grid, h: nat, strong: FilterSpec, weak: FilterSpec, r: Table,
                              parseDate: string -> Option<int>, parseNumber: string -> Option<int>)
    requires Rectangular(raw)
    requires HeaderRowOf(raw) == Some(h)
    requires Stricter(strong, weak)
    requires Extract(raw, strong, parseDate, parseNumber) == Success(r)
    ensures Extract(raw, weak, parseDate, parseNumber).Success?
    ensures IsSubsequence(r, Extract(raw, weak, parseDate, parseNumber).value)
  {
    ExtractSucceeded(raw, h, strong, r, parseDate, parseNumber);
    var header := raw[h];
    var t := Cleaned(raw, h, ResolveColumns(header).value, parseDate, parseNumber);
    var n := if SearchActive(strong) then LookupColumn(header, "Narration").value else 0;
    var m := if SearchActive(weak) then n else 0;
    assert r == Select(t, Criteria(strong, n));
    assert Filtered(t, header, weak) == Success(Select(t, Criteria(weak, m)));
    assert Extract(raw, weak, parseDate, parseNumber) == Success(Select(t, Criteria(weak, m)));
    forall x | x in t && AllHold(Criteria(strong, n), x) ensures AllHold(Criteria(weak, m), x) {
      StricterPassesWeaker(strong, weak, n, m, x);
    }
    SelectNarrows(t, Criteria(weak, m), Criteria(strong, n));
  }

  /** The extraction depends on the grid only through its header row and the block below it. */
  lemma ExtractReadsHeaderAndBlock(raw: Grid, raw': Grid, h: nat, spec: FilterSpec,
                                   parseDate: string -> Option<int>, parseNumber: string -> Option<int>)
    requires Rectangular(raw) && Rectangular(raw')
    requires HeaderRowOf(raw) == Some(h) && HeaderRowOf(raw') == Some(h)
    requires raw[h] == raw'[h] && Block(raw, h) == Block(raw', h)
    ensures Extract(raw', spec, parseDate, parseNumber) == Extract(raw, spec, parseDate, parseNumber)
  {
    assert Cleaned(raw, h, ResolveColumns(raw[h]).GetOr(Columns(0, 0, 0, 0)), parseDate, parseNumber) ==
           Cleaned(raw', h, ResolveColumns(raw[h]).GetOr(Columns(0, 0, 0, 0)), parseDate, parseNumber);
  }

  /** Rows after the first header row do not affect which row is found. */
  lemma HeaderRowKeptAfterLaterChange(raw: Grid, h: nat, i: nat, other: Row)
    requires HeaderRowOf(raw) == Some(h) && h < i < |raw|
    ensures HeaderRowOf(raw[i := other]) == Some(h)
  {
    var raw' := raw[i := other];
    assert raw'[h] == raw[h];
    assert forall j :: 0 <= j < h ==> raw'[j] == raw[j];
  }

  /** The row right below the header is never read: replacing it changes nothing. */
  lemma SeparatorRowIgnored(raw: Grid, h: nat, other: Row, spec: FilterSpec,
                            parseDate: string -> Option<int>, parseNumber: string -> Option<int>)
    requires Rectangular(raw)
    requires HeaderRowOf(raw) == Some(h) && h + 1 < |raw|
    requires |other| == |raw[h]|
    ensures Rectangular(raw[h + 1 := other])
    ensures Extract(raw[h + 1 := other], spec, parseDate, parseNumber) == Extract(raw, spec, parseDate, parseNumber)
  {
    var raw' := raw[h + 1 := other];
    HeaderRowKeptAfterLaterChange(raw, h, h + 1, other);
    assert Block(raw', h) == Block(raw, h);
    ExtractReadsHeaderAndBlock(raw, raw', h, spec, parseDate, parseNumber);
  }

  // ---------------------------------------------------------------------------
  // Worked examples
  // ---------------------------------------------------------------------------

  function DepositRow(serial: nat, deposit: Option<int>): Txn
  {
    Txn(serial, None, None, deposit, None, [])
  }

  /** Deposits only with a minimum of 5000 over deposits 100, 6000, absent, 5000 keeps the 6000 and 5000 rows. */
  lemma DepositsExample()
    ensures var t := [DepositRow(1, Some(100)), DepositRow(2, Some(6000)), DepositRow(3, None), DepositRow(4, Some(5000))];
      var spec := NoFilters.(depositsOnly := true, minDeposit := Some(5000));
      Select(t, Criteria(spec, 0)) == [t[1], t[3]]
  {
    var t := [DepositRow(1, Some(100)), DepositRow(2, Some(6000)), DepositRow(3, None), DepositRow(4, Some(5000))];
    var cs := Criteria(NoFilters.(depositsOnly := true, minDeposit := Some(5000)), 0);
    assert cs == [DepositsOnly, MinDeposit(5000)];
    assert !AllHold(cs, t[0]) by { assert !Holds(cs[1], t[0]); }
    assert !AllHold(cs, t[2]) by { assert !Holds(cs[0], t[2]); }
    assert AllHold(cs, t[1]) && AllHold(cs, t[3]);
    assert Select([t[3]], cs) == [t[3]] by { assert [t[3]][1..] == []; }
    assert Select([t[2], t[3]], cs) == [t[3]] by { assert [t[2], t[3]][1..] == [t[3]]; }
    assert Select(t[1..], cs) == [t[1], t[3]] by { assert t[1..][1..] == [t[2], t[3]]; }
  }

  /** The search is case-insensitive: "atm" finds "ATM WDL 123". */
  lemma NarrationExample()
    ensures NarrationMatches(Text("ATM WDL 123"), "atm")
  {
    assert Lower("ATM WDL 123")[..3] == "atm";
  }
}
