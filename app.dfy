/**
 * The non-presentation logic of the statement page (app.py): turning the
 * filter-type choice and the entered minimums into extractor parameters, and
 * picking the ten largest withdrawals and deposits of the extracted table.
 */
module App {
  import opened Wrappers
  import opened Statement
  import Parser

  // ---------------------------------------------------------------------------
  // Filter parameters
  // ---------------------------------------------------------------------------

  /** The three options of the filter-type radio button. */
  datatype FilterType = AllTransactions | OnlyDeposits | OnlyWithdrawals

  datatype FilterParams = FilterParams(
    filterDeposits: bool,
    filterWithdrawals: bool,
    minDeposit: Option<int>,
    minWithdrawal: Option<int>)

  /**
   * The flags and minimums handed to the extractor. A minimum is asked for
   * only under the choices it applies to (the entry widget starts at 0 and
   * does not go below 0); under "All Transactions" an entered 0 means no
   * minimum.
   */
  function DeriveParams(choice: FilterType, enteredDeposit: nat, enteredWithdrawal: nat): (p: FilterParams)
    ensures p.filterDeposits <==> choice == OnlyDeposits
    ensures p.filterWithdrawals <==> choice == OnlyWithdrawals
    ensures !(p.filterDeposits && p.filterWithdrawals)
    ensures choice == OnlyDeposits ==> p.minDeposit == Some(enteredDeposit) && p.minWithdrawal == None
    ensures choice == OnlyWithdrawals ==> p.minWithdrawal == Some(enteredWithdrawal) && p.minDeposit == None
    ensures choice == AllTransactions ==>
      (p.minDeposit == None <==> enteredDeposit == 0) &&
      (p.minWithdrawal == None <==> enteredWithdrawal == 0) &&
      (p.minDeposit.Some? ==> p.minDeposit.value == enteredDeposit) &&
      (p.minWithdrawal.Some? ==> p.minWithdrawal.value == enteredWithdrawal)
  {
    var filterDeposits := choice == OnlyDeposits;
    var filterWithdrawals := choice == OnlyWithdrawals;
    var minDeposit := if filterDeposits || choice == AllTransactions then Some(enteredDeposit) else None;
    var minWithdrawal := if filterWithdrawals || choice == AllTransactions then Some(enteredWithdrawal) else None;
    var minDeposit := if choice == AllTransactions && minDeposit == Some(0) then None else minDeposit;
    var minWithdrawal := if choice == AllTransactions && minWithdrawal == Some(0) then None else minWithdrawal;
    FilterParams(filterDeposits, filterWithdrawals, minDeposit, minWithdrawal)
  }

  /** The extractor's filter arguments built from the page's inputs. */
  function ToFilterSpec(p: FilterParams, search: string, startDate: Option<int>, endDate: Option<int>): (r: Parser.FilterSpec)
    ensures Parser.SearchActive(r) <==> search != ""
  {
    Parser.FilterSpec(p.filterDeposits, p.filterWithdrawals, p.minDeposit, p.minWithdrawal,
                      Some(search), startDate, endDate)
  }

  /** "All Transactions" with the inputs left at their defaults shows the whole statement. */
  lemma DefaultsShowEverything(t: Table, narrationColumn: nat)
    ensures Parser.Select(t, Parser.Criteria(ToFilterSpec(DeriveParams(AllTransactions, 0, 0), "", None, None),
                                             narrationColumn)) == t
  {
    assert Parser.Criteria(ToFilterSpec(DeriveParams(AllTransactions, 0, 0), "", None, None), narrationColumn) == [];
    Parser.SelectNothing(t);
  }

  /**
   * Under "Only Deposits" every row shown has a non-zero deposit of at least the
   * entered minimum, the minimum being applied even when it is 0.
   */
  lemma OnlyDepositsRows(t: Table, entered: nat, search: string, startDate: Option<int>, endDate: Option<int>,
                         narrationColumn: nat, x: Txn)
    requires x in Parser.Select(t, Parser.Criteria(ToFilterSpec(DeriveParams(OnlyDeposits, entered, 0), search,
                                                                startDate, endDate), narrationColumn))
    ensures x in t && x.deposit.Some? && x.deposit.value != 0 && x.deposit.value >= entered
  {
    var spec := ToFilterSpec(DeriveParams(OnlyDeposits, entered, 0), search, startDate, endDate);
    Parser.SelectedRowsMeetSpec(t, spec, narrationColumn, x);
  }

  /** Under "Only Withdrawals" every row shown has a non-zero withdrawal of at least the entered minimum. */
  lemma OnlyWithdrawalsRows(t: Table, entered: nat, search: string, startDate: Option<int>, endDate: Option<int>,
                            narrationColumn: nat, x: Txn)
    requires x in Parser.Select(t, Parser.Criteria(ToFilterSpec(DeriveParams(OnlyWithdrawals, 0, entered), search,
                                                                startDate, endDate), narrationColumn))
    ensures x in t && x.withdrawal.Some? && x.withdrawal.value != 0 && x.withdrawal.value >= entered
  {
    var spec := ToFilterSpec(DeriveParams(OnlyWithdrawals, 0, entered), search, startDate, endDate);
    Parser.SelectedRowsMeetSpec(t, spec, narrationColumn, x);
  }

  // ---------------------------------------------------------------------------
  // Top ten
  // ---------------------------------------------------------------------------

  /** The rows whose amount in `col` is present, in table order. */
  function WithAmount(t: Table, col: AmountColumn): (r: Table)
    ensures forall x :: x in r <==> x in t && Amount(col, x).Some?
    ensures forall x :: multiset(r)[x] == if Amount(col, x).Some? then multiset(t)[x] else 0
    ensures multiset(r) <= multiset(t)
  {
    if t == [] then []
    else
      assert t == [t[0]] + t[1..];
      (if Amount(col, t[0]).Some? then [t[0]] else []) + WithAmount(t[1..], col)
  }

  function Min(a: nat, b: nat): nat
  {
    if a <= b then a else b
  }

  /** Every later row has an amount no larger than every earlier row (absent read as 0). */
  predicate Descending(s: Table, col: AmountColumn)
  {
    forall i, j :: 0 <= i < j < |s| ==> ZeroFilled(col, s[j]) <= ZeroFilled(col, s[i])
  }

  /**
   * Puts `x` into a sequence sorted by decreasing amount, ahead of the rows
   * whose amount equals its own.
   */
  function Insert(x: Txn, s: Table, col: AmountColumn): (r: Table)
    ensures |r| == |s| + 1
    ensures forall y :: y in r <==> y == x || y in s
  {
    if s == [] || ZeroFilled(col, s[0]) <= ZeroFilled(col, x) then [x] + s
    else [s[0]] + Insert(x, s[1..], col)
  }

  lemma {:induction false} InsertMultiset(x: Txn, s: Table, col: AmountColumn)
    ensures multiset(Insert(x, s, col)) == multiset(s) + multiset{x}
  {
    if s != [] && ZeroFilled(col, x) < ZeroFilled(col, s[0]) {
      InsertMultiset(x, s[1..], col);
      assert s == [s[0]] + s[1..];
    }
  }

  lemma {:induction false} InsertDescending(x: Txn, s: Table, col: AmountColumn)
    requires Descending(s, col)
    ensures Descending(Insert(x, s, col), col)
  {
    var r := Insert(x, s, col);
    if s == [] || ZeroFilled(col, s[0]) <= ZeroFilled(col, x) {
      forall i, j | 0 <= i < j < |r| ensures ZeroFilled(col, r[j]) <= ZeroFilled(col, r[i]) {
        if i == 0 {
          assert r[j] == s[j - 1];
        } else {
          assert r[i] == s[i - 1] && r[j] == s[j - 1];
        }
      }
    } else {
      var tail := Insert(x, s[1..], col);
      InsertDescending(x, s[1..], col);
      forall i, j | 0 <= i < j < |r| ensures ZeroFilled(col, r[j]) <= ZeroFilled(col, r[i]) {
        assert r[j] == tail[j - 1];
        if i == 0 {
          assert tail[j - 1] in tail;
          if tail[j - 1] != x {
            var k :| 0 <= k < |s[1..]| && s[1..][k] == tail[j - 1];
            assert s[k + 1] == tail[j - 1];
          }
        } else {
          assert r[i] == tail[i - 1];
        }
      }
    }
  }

  /** The rows in decreasing order of amount; rows with equal amounts keep their order. */
  function SortDescending(s: Table, col: AmountColumn): (r: Table)
    ensures |r| == |s|
  {
    if s == [] then [] else Insert(s[0], SortDescending(s[1..], col), col)
  }

  /** Sorting keeps every row, as often as it occurs. */
  lemma {:induction false} SortDescendingPermutes(s: Table, col: AmountColumn)
    ensures multiset(SortDescending(s, col)) == multiset(s)
  {
    if s != [] {
      SortDescendingPermutes(s[1..], col);
      InsertMultiset(s[0], SortDescending(s[1..], col), col);
      assert s == [s[0]] + s[1..];
    }
  }

  /** Sorting puts the rows in decreasing order of amount. */
  lemma {:induction false} SortDescendingSorted(s: Table, col: AmountColumn)
    ensures Descending(SortDescending(s, col), col)
  {
    if s != [] {
      SortDescendingSorted(s[1..], col);
      InsertDescending(s[0], SortDescending(s[1..], col), col);
    }
  }

  /** The `n` rows with the largest amounts, largest first; among equal amounts the earlier row comes first. */
  function NLargest(s: Table, col: AmountColumn, n: nat): (r: Table)
    ensures |r| == Min(n, |s|)
  {
    SortDescending(s, col)[..Min(n, |s|)]
  }

  /** The selection takes each row at most as often as the sequence holds it. */
  lemma NLargestSubMultiset(s: Table, col: AmountColumn, n: nat)
    ensures multiset(NLargest(s, col, n)) <= multiset(s)
  {
    var sorted := SortDescending(s, col);
    SortDescendingPermutes(s, col);
    assert sorted == NLargest(s, col, n) + sorted[Min(n, |s|)..];
  }

  /** The selection is in decreasing order of amount. */
  lemma NLargestDescending(s: Table, col: AmountColumn, n: nat)
    ensures Descending(NLargest(s, col, n), col)
  {
    SortDescendingSorted(s, col);
  }

  /** No row of the sequence left out of the selection has a larger amount than a selected row. */
  lemma NLargestDominates(s: Table, col: AmountColumn, n: nat, i: nat, y: Txn)
    requires i < |NLargest(s, col, n)|
    requires y in s && y !in NLargest(s, col, n)
    ensures ZeroFilled(col, y) <= ZeroFilled(col, NLargest(s, col, n)[i])
  {
    var sorted := SortDescending(s, col);
    SortDescendingPermutes(s, col);
    SortDescendingSorted(s, col);
    assert y in multiset(sorted);
    var k :| 0 <= k < |sorted| && sorted[k] == y;
    assert sorted[i] == NLargest(s, col, n)[i];
  }

  /** The ten largest present amounts of a column, largest first. */
  function Top10(t: Table, col: AmountColumn): (r: Table)
    ensures |r| == Min(10, |WithAmount(t, col)|)
  {
    NLargest(WithAmount(t, col), col, 10)
  }

  /** Every row of the top ten is a row of the table with an amount present in the column. */
  lemma Top10Rows(t: Table, col: AmountColumn)
    ensures multiset(Top10(t, col)) <= multiset(t)
    ensures forall x :: x in Top10(t, col) ==> Amount(col, x).Some?
  {
    var present := WithAmount(t, col);
    NLargestSubMultiset(present, col, 10);
    forall x | x in Top10(t, col) ensures Amount(col, x).Some? {
      assert x in multiset(present);
    }
  }

  /** The top ten are listed largest first. */
  lemma Top10Ordered(t: Table, col: AmountColumn)
    ensures Descending(Top10(t, col), col)
  {
    NLargestDescending(WithAmount(t, col), col, 10);
  }

  /** A row with a present amount that is not in the top ten has an amount no larger than any of them. */
  lemma Top10Dominates(t: Table, col: AmountColumn, i: nat, y: Txn)
    requires i < |Top10(t, col)|
    requires y in t && Amount(col, y).Some? && y !in Top10(t, col)
    ensures ZeroFilled(col, y) <= ZeroFilled(col, Top10(t, col)[i])
  {
    NLargestDominates(WithAmount(t, col), col, 10, i, y);
  }
}
