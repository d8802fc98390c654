/** Monthly paid revenue: keep the paid transactions, truncate each one's
    creation time to its month, sum the amounts per month and list the months
    in ascending order. */
module RevenueTrend {
  import opened Calendar
  import opened Tables

  /** One row of the monthly revenue table. */
  datatype MonthlyRevenue = MonthlyRevenue(month: Month, totalAmount: int)

  // ---------------------------------------------------------------------
  // Reference definitions, stated directly over the transaction table

  /** The months that hold at least one paid transaction. */
  function PaidMonths(txs: seq<Transaction>): set<Month> {
    set t | t in txs && IsPaid(t) :: MonthOf(t.createdAt)
  }

  /** The sum of the amounts of the paid transactions created in month `m`. */
  function MonthTotal(txs: seq<Transaction>, m: Month): int {
    if txs == [] then 0
    else (if IsPaid(txs[0]) && MonthOf(txs[0].createdAt) == m then txs[0].totalAmount else 0)
         + MonthTotal(txs[1..], m)
  }

  /** The sum of the amounts of the transactions (of any status) created in month `m`. */
  function AmountInMonth(txs: seq<Transaction>, m: Month): int {
    if txs == [] then 0
    else (if MonthOf(txs[0].createdAt) == m then txs[0].totalAmount else 0) + AmountInMonth(txs[1..], m)
  }

  /** The sum of the amounts of the transactions, of any status. */
  function AmountSum(txs: seq<Transaction>): int {
    if txs == [] then 0 else txs[0].totalAmount + AmountSum(txs[1..])
  }

  /** The sum of the amounts of all paid transactions. */
  function PaidTotal(txs: seq<Transaction>): int {
    if txs == [] then 0
    else (if IsPaid(txs[0]) then txs[0].totalAmount else 0) + PaidTotal(txs[1..])
  }

  // ---------------------------------------------------------------------
  // Properties of a table of monthly rows

  predicate StrictlyAscending(rows: seq<MonthlyRevenue>) {
    forall i, j | 0 <= i < j < |rows| :: Before(rows[i].month, rows[j].month)
  }

  function MonthsOf(rows: seq<MonthlyRevenue>): set<Month> {
    set r | r in rows :: r.month
  }

  /** The amount a table shows for month `m`, 0 when it has no row for `m`. */
  function Lookup(rows: seq<MonthlyRevenue>, m: Month): int {
    if rows == [] then 0
    else if rows[0].month == m then rows[0].totalAmount
    else Lookup(rows[1..], m)
  }

  function RowsTotal(rows: seq<MonthlyRevenue>): int {
    if rows == [] then 0 else rows[0].totalAmount + RowsTotal(rows[1..])
  }

  // ---------------------------------------------------------------------
  // The pipeline

  /** The filter on payment status: exactly the paid transactions, in their order. */
  function PaidTransactions(txs: seq<Transaction>): (r: seq<Transaction>)
    ensures forall t :: t in r <==> t in txs && IsPaid(t)
    ensures forall t :: multiset(r)[t] == if IsPaid(t) then multiset(txs)[t] else 0
    ensures |r| <= |txs|
  {
    if txs == [] then []
    else
      assert txs == [txs[0]] + txs[1..];
      (if IsPaid(txs[0]) then [txs[0]] else []) + PaidTransactions(txs[1..])
  }

  /** The group-by accumulator step: adds `amount` to the row of month `m`,
      creating that row at its place in the order when it is missing. */
  function AddToMonth(rows: seq<MonthlyRevenue>, m: Month, amount: int): (r: seq<MonthlyRevenue>)
    requires StrictlyAscending(rows)
    ensures StrictlyAscending(r)
    ensures MonthsOf(r) == MonthsOf(rows) + {m}
    ensures forall k :: Lookup(r, k) == Lookup(rows, k) + (if k == m then amount else 0)
    ensures RowsTotal(r) == RowsTotal(rows) + amount
  {
    if rows == [] then [MonthlyRevenue(m, amount)]
    else
      MonthsOfCons(rows[0], rows[1..]);
      assert [rows[0]] + rows[1..] == rows;
      if rows[0].month == m then
        var row := MonthlyRevenue(m, rows[0].totalAmount + amount);
        HeadBeforeAll(rows, m);
        ConsAscending(row, rows[1..]);
        MonthsOfCons(row, rows[1..]);
        [row] + rows[1..]
      else if Before(m, rows[0].month) then
        var row := MonthlyRevenue(m, amount);
        HeadBeforeAll(rows, m);
        ConsAscending(row, rows);
        MonthsOfCons(row, rows);
        LookupAbsent(rows, m);
        [row] + rows
      else
        var tail := AddToMonth(rows[1..], m, amount);
        HeadBeforeAll(rows, rows[0].month);
        ConsAscending(rows[0], tail);
        MonthsOfCons(rows[0], tail);
        [rows[0]] + tail
  }

  /** Sums the amounts of the given transactions per month of creation. */
  function GroupByMonth(txs: seq<Transaction>): (r: seq<MonthlyRevenue>)
    ensures StrictlyAscending(r)
    ensures MonthsOf(r) == set t | t in txs :: MonthOf(t.createdAt)
    ensures forall m :: Lookup(r, m) == AmountInMonth(txs, m)
    ensures RowsTotal(r) == AmountSum(txs)
  {
    if txs == [] then []
    else
      var t := txs[0];
      assert (set u | u in txs :: MonthOf(u.createdAt))
          == {MonthOf(t.createdAt)} + (set u | u in txs[1..] :: MonthOf(u.createdAt)) by {
        assert txs == [t] + txs[1..];
      }
      AddToMonth(GroupByMonth(txs[1..]), MonthOf(t.createdAt), t.totalAmount)
  }

  /** The monthly revenue table: one row per month with a paid transaction,
      in ascending order, each holding that month's paid amount; no other
      transaction contributes, and the rows sum to the total paid amount. */
  function MonthlyPaidRevenue(txs: seq<Transaction>): (r: seq<MonthlyRevenue>)
    ensures StrictlyAscending(r)
    ensures MonthsOf(r) == PaidMonths(txs)
    ensures forall m :: Lookup(r, m) == MonthTotal(txs, m)
    ensures forall i | 0 <= i < |r| :: r[i].totalAmount == MonthTotal(txs, r[i].month)
    ensures RowsTotal(r) == PaidTotal(txs)
  {
    var rows := GroupByMonth(PaidTransactions(txs));
    PaidFilterSums(txs);
    forall i | 0 <= i < |rows| ensures rows[i].totalAmount == MonthTotal(txs, rows[i].month) {
      LookupRow(rows, i);
    }
    rows
  }

  // ---------------------------------------------------------------------
  // Lemmas

  lemma {:induction false} HeadBeforeAll(rows: seq<MonthlyRevenue>, m: Month)
    requires StrictlyAscending(rows)
    requires rows != [] && (m == rows[0].month || Before(m, rows[0].month))
    ensures forall k | k in MonthsOf(rows[1..]) :: Before(m, k)
  {
    forall k | k in MonthsOf(rows[1..]) ensures Before(m, k) {
      var j :| 0 <= j < |rows[1..]| && rows[1..][j].month == k;
      assert Before(rows[0].month, rows[j + 1].month);
    }
  }

  lemma MonthsOfCons(r: MonthlyRevenue, rows: seq<MonthlyRevenue>)
    ensures MonthsOf([r] + rows) == {r.month} + MonthsOf(rows)
  {
    assert forall x | x in [r] + rows :: x == r || x in rows;
  }

  lemma ConsAscending(r: MonthlyRevenue, rows: seq<MonthlyRevenue>)
    requires StrictlyAscending(rows)
    requires forall k | k in MonthsOf(rows) :: Before(r.month, k)
    ensures StrictlyAscending([r] + rows)
  {
    forall i, j | 0 <= i < j < |[r] + rows|
      ensures Before(([r] + rows)[i].month, ([r] + rows)[j].month)
    {
      if i == 0 {
        assert ([r] + rows)[j].month in MonthsOf(rows) by {
          assert ([r] + rows)[j] == rows[j - 1];
        }
      }
    }
  }

  /** A table shows 0 for a month it has no row for. */
  lemma {:induction false} LookupAbsent(rows: seq<MonthlyRevenue>, m: Month)
    requires m !in MonthsOf(rows)
    ensures Lookup(rows, m) == 0
  {
    if rows != [] {
      assert MonthsOf(rows[1..]) <= MonthsOf(rows);
      LookupAbsent(rows[1..], m);
    }
  }

  /** In a table without repeated months, `Lookup` finds a row's own amount. */
  lemma {:induction false} LookupRow(rows: seq<MonthlyRevenue>, i: nat)
    requires StrictlyAscending(rows)
    requires i < |rows|
    ensures Lookup(rows, rows[i].month) == rows[i].totalAmount
  {
    if i > 0 {
      assert Before(rows[0].month, rows[i].month);
      assert rows[1..][i - 1] == rows[i];
      LookupRow(rows[1..], i - 1);
    }
  }

  /** Filtering on payment status and then summing is summing the paid amounts. */
  lemma {:induction false} PaidFilterSums(txs: seq<Transaction>)
    ensures forall m :: AmountInMonth(PaidTransactions(txs), m) == MonthTotal(txs, m)
    ensures AmountSum(PaidTransactions(txs)) == PaidTotal(txs)
    ensures (set t | t in PaidTransactions(txs) :: MonthOf(t.createdAt)) == PaidMonths(txs)
  {
    if txs != [] {
      PaidFilterSums(txs[1..]);
      var head := if IsPaid(txs[0]) then [txs[0]] else [];
      AmountsAppend(head, PaidTransactions(txs[1..]));
    }
  }

  lemma {:induction false} AmountsAppend(xs: seq<Transaction>, ys: seq<Transaction>)
    ensures forall m :: AmountInMonth(xs + ys, m) == AmountInMonth(xs, m) + AmountInMonth(ys, m)
    ensures AmountSum(xs + ys) == AmountSum(xs) + AmountSum(ys)
  {
    if xs == [] {
      assert xs + ys == ys;
    } else {
      assert (xs + ys)[1..] == xs[1..] + ys;
      AmountsAppend(xs[1..], ys);
    }
  }

  lemma {:induction false} MonthTotalAppend(xs: seq<Transaction>, ys: seq<Transaction>, m: Month)
    ensures MonthTotal(xs + ys, m) == MonthTotal(xs, m) + MonthTotal(ys, m)
  {
    if xs == [] {
      assert xs + ys == ys;
    } else {
      assert (xs + ys)[1..] == xs[1..] + ys;
      MonthTotalAppend(xs[1..], ys, m);
    }
  }

  /** Two ascending tables that show the same amount for every month and have
      the same months are the same table. */
  lemma {:induction false} AscendingTablesEqual(a: seq<MonthlyRevenue>, b: seq<MonthlyRevenue>)
    requires StrictlyAscending(a) && StrictlyAscending(b)
    requires MonthsOf(a) == MonthsOf(b)
    requires forall m :: Lookup(a, m) == Lookup(b, m)
    ensures a == b
    decreases |a|
  {
    if a == [] {
      assert b == [] by {
        assert forall i | 0 <= i < |b| :: b[i].month in MonthsOf(b);
      }
    } else {
      assert b != [] by {
        assert a[0].month in MonthsOf(a);
      }
      var ma, mb := a[0].month, b[0].month;
      assert MonthsOf(a) == {ma} + MonthsOf(a[1..]) by { assert a == [a[0]] + a[1..]; }
      assert MonthsOf(b) == {mb} + MonthsOf(b[1..]) by { assert b == [b[0]] + b[1..]; }
      HeadBeforeAll(a, ma);
      HeadBeforeAll(b, mb);
      assert ma == mb by {
        assert ma in MonthsOf(b) && mb in MonthsOf(a);
        assert ma != mb ==> Before(ma, mb) && Before(mb, ma);
      }
      assert ma !in MonthsOf(a[1..]) && mb !in MonthsOf(b[1..]);
      LookupAbsent(a[1..], ma);
      LookupAbsent(b[1..], mb);
      forall m ensures Lookup(a[1..], m) == Lookup(b[1..], m) {
        assert m != ma ==> Lookup(a, m) == Lookup(a[1..], m) && Lookup(b, m) == Lookup(b[1..], m);
      }
      assert StrictlyAscending(a[1..]) && StrictlyAscending(b[1..]);
      AscendingTablesEqual(a[1..], b[1..]);
      assert Lookup(a, ma) == Lookup(b, ma);
      assert a[0] == b[0];
      assert a == [a[0]] + a[1..] && b == [b[0]] + b[1..];
    }
  }

  /** The monthly revenue table is the only ascending table with one row per
      month that has a paid transaction holding that month's paid amount. */
  lemma MonthlyPaidRevenueUnique(txs: seq<Transaction>, rows: seq<MonthlyRevenue>)
    requires StrictlyAscending(rows)
    requires MonthsOf(rows) == PaidMonths(txs)
    requires forall i | 0 <= i < |rows| :: rows[i].totalAmount == MonthTotal(txs, rows[i].month)
    ensures rows == MonthlyPaidRevenue(txs)
  {
    var r := MonthlyPaidRevenue(txs);
    forall m ensures Lookup(rows, m) == Lookup(r, m) {
      if m in MonthsOf(rows) {
        var i :| 0 <= i < |rows| && rows[i].month == m;
        LookupRow(rows, i);
      } else {
        LookupAbsent(rows, m);
        LookupAbsent(r, m);
        MonthTotalOutsidePaidMonths(txs, m);
      }
    }
    AscendingTablesEqual(rows, r);
  }

  /** A month without paid transactions has no paid amount. */
  lemma {:induction false} MonthTotalOutsidePaidMonths(txs: seq<Transaction>, m: Month)
    requires m !in PaidMonths(txs)
    ensures MonthTotal(txs, m) == 0
  {
    if txs != [] {
      assert PaidMonths(txs[1..]) <= PaidMonths(txs);
      MonthTotalOutsidePaidMonths(txs[1..], m);
    }
  }

  /** Only paid transactions contribute: inserting a transaction of any other
      status anywhere in the table leaves the monthly revenue unchanged. */
  lemma UnpaidTransactionIgnored(before: seq<Transaction>, t: Transaction, after: seq<Transaction>)
    requires !IsPaid(t)
    ensures MonthlyPaidRevenue(before + [t] + after) == MonthlyPaidRevenue(before + after)
  {
    var txs := before + [t] + after;
    forall m ensures MonthTotal(txs, m) == MonthTotal(before + after, m) {
      MonthTotalAppend(before + [t], after, m);
      MonthTotalAppend(before, [t], m);
      MonthTotalAppend(before, after, m);
    }
    assert PaidMonths(txs) == PaidMonths(before + after);
    MonthlyPaidRevenueUnique(before + after, MonthlyPaidRevenue(txs));
  }

  /** The table does not depend on the order of the transaction rows. */
  lemma RowOrderIrrelevant(xs: seq<Transaction>, ys: seq<Transaction>)
    requires multiset(xs) == multiset(ys)
    ensures MonthlyPaidRevenue(xs) == MonthlyPaidRevenue(ys)
  {
    forall m ensures MonthTotal(xs, m) == MonthTotal(ys, m) {
      MonthTotalPermutation(xs, ys, m);
    }
    assert forall t :: t in xs <==> t in ys by {
      forall t ensures t in xs <==> t in ys {
        assert t in xs <==> t in multiset(xs);
        assert t in ys <==> t in multiset(ys);
      }
    }
    assert PaidMonths(xs) == PaidMonths(ys);
    MonthlyPaidRevenueUnique(ys, MonthlyPaidRevenue(xs));
  }

  lemma {:induction false} MonthTotalPermutation(xs: seq<Transaction>, ys: seq<Transaction>, m: Month)
    requires multiset(xs) == multiset(ys)
    ensures MonthTotal(xs, m) == MonthTotal(ys, m)
    decreases |xs|
  {
    if xs == [] {
      assert |ys| == |multiset(ys)| == 0;
    } else {
      var t := xs[0];
      assert t in multiset(ys);
      var k :| 0 <= k < |ys| && ys[k] == t;
      var rest := ys[..k] + ys[k + 1..];
      assert ys == ys[..k] + [t] + ys[k + 1..];
      assert xs == [t] + xs[1..];
      assert multiset(ys) == multiset(ys[..k]) + multiset{t} + multiset(ys[k + 1..]);
      assert multiset(xs) == multiset{t} + multiset(xs[1..]);
      assert multiset(rest) == multiset(ys[..k]) + multiset(ys[k + 1..]);
      calc {
        multiset(xs[1..]);
        multiset(xs) - multiset{t};
        multiset(ys) - multiset{t};
        multiset(rest);
      }
      MonthTotalPermutation(xs[1..], rest, m);
      MonthTotalAppend(ys[..k] + [t], ys[k + 1..], m);
      MonthTotalAppend(ys[..k], [t], m);
      MonthTotalAppend(ys[..k], ys[k + 1..], m);
    }
  }
}
