/** Support friction against payment outcomes: the number of support tickets
    of every customer who raised one, beside that customer's number of
    transactions per payment status and its number of paid transactions.
    Transactions are counted per (customer, status) and spread into one column
    per status that occurs; the ticket counts are left-joined to that table,
    so customers without tickets are absent and customers without transactions
    read 0 in every status column. */
module SupportFriction {
  import opened Aggregation
  import opened Tables

  // ---------------------------------------------------------------------
  // Row counts, the reference definitions

  /** The number of ticket rows of customer `id`. */
  function TicketRows(tickets: seq<SupportTicket>, id: CustomerId): nat {
    if tickets == [] then 0
    else (if tickets[0].customerId == id then 1 else 0) + TicketRows(tickets[1..], id)
  }

  /** The number of transactions of customer `id`. */
  function TransactionRows(txs: seq<Transaction>, id: CustomerId): nat {
    if txs == [] then 0
    else (if txs[0].customerId == id then 1 else 0) + TransactionRows(txs[1..], id)
  }

  /** The number of transactions of customer `id` with payment status `st`. */
  function StatusRows(txs: seq<Transaction>, id: CustomerId, st: PaymentStatus): nat {
    if txs == [] then 0
    else (if txs[0].customerId == id && txs[0].paymentStatus == st then 1 else 0) + StatusRows(txs[1..], id, st)
  }

  /** The payment statuses that occur among the transactions. */
  function Statuses(txs: seq<Transaction>): set<PaymentStatus> {
    set t | t in txs :: t.paymentStatus
  }

  // ---------------------------------------------------------------------
  // Ticket counts

  function TicketIds(tickets: seq<SupportTicket>): (r: seq<CustomerId>)
    ensures |r| == |tickets| && forall i | 0 <= i < |tickets| :: r[i] == tickets[i].customerId
  {
    seq(|tickets|, i requires 0 <= i < |tickets| => tickets[i].customerId)
  }

  lemma {:induction false} TicketRowsIsMultiplicity(tickets: seq<SupportTicket>, id: CustomerId)
    ensures TicketRows(tickets, id) == multiset(TicketIds(tickets))[id]
  {
    if tickets != [] {
      TicketRowsIsMultiplicity(tickets[1..], id);
      assert TicketIds(tickets) == [tickets[0].customerId] + TicketIds(tickets[1..]);
    }
  }

  /** The ticket rows per customer: exactly the customers with a ticket are
      listed, each with its number of ticket rows, at least 1. */
  function TicketCounts(tickets: seq<SupportTicket>): (r: map<CustomerId, nat>)
    ensures r.Keys == set t | t in tickets :: t.customerId
    ensures forall id | id in r :: r[id] == TicketRows(tickets, id) && r[id] >= 1
  {
    var ids := TicketIds(tickets);
    assert (set k | k in ids) == set t | t in tickets :: t.customerId by {
      forall k | k in ids ensures k in set t | t in tickets :: t.customerId {
        var i :| 0 <= i < |ids| && ids[i] == k;
        assert tickets[i] in tickets;
      }
      forall t | t in tickets ensures t.customerId in ids {
        var i :| 0 <= i < |tickets| && tickets[i] == t;
        assert ids[i] == t.customerId;
      }
    }
    assert forall id :: TicketRows(tickets, id) == multiset(ids)[id] by {
      forall id ensures TicketRows(tickets, id) == multiset(ids)[id] {
        TicketRowsIsMultiplicity(tickets, id);
      }
    }
    Tally(ids)
  }

  // ---------------------------------------------------------------------
  // Transactions per customer and payment status

  function StatusPairs(txs: seq<Transaction>): (r: seq<(CustomerId, PaymentStatus)>)
    ensures |r| == |txs| && forall i | 0 <= i < |txs| :: r[i] == (txs[i].customerId, txs[i].paymentStatus)
  {
    seq(|txs|, i requires 0 <= i < |txs| => (txs[i].customerId, txs[i].paymentStatus))
  }

  lemma {:induction false} StatusRowsIsMultiplicity(txs: seq<Transaction>, id: CustomerId, st: PaymentStatus)
    ensures StatusRows(txs, id, st) == multiset(StatusPairs(txs))[(id, st)]
  {
    if txs != [] {
      StatusRowsIsMultiplicity(txs[1..], id, st);
      assert StatusPairs(txs) == [(txs[0].customerId, txs[0].paymentStatus)] + StatusPairs(txs[1..]);
    }
  }

  lemma StatusPairsRows(txs: seq<Transaction>)
    ensures RowsOf(Tally(StatusPairs(txs))) == set t | t in txs :: t.customerId
  {
    var pairs := StatusPairs(txs);
    var counts := Tally(pairs);
    forall id | id in RowsOf(counts) ensures id in set t | t in txs :: t.customerId {
      var key :| key in counts && key.0 == id;
      var i :| 0 <= i < |pairs| && pairs[i] == key;
      assert txs[i] in txs;
    }
    forall t | t in txs ensures t.customerId in RowsOf(counts) {
      var i :| 0 <= i < |txs| && txs[i] == t;
      assert pairs[i] in pairs;
    }
  }

  lemma StatusPairsColumns(txs: seq<Transaction>)
    ensures ColumnsOf(Tally(StatusPairs(txs))) == Statuses(txs)
  {
    var pairs := StatusPairs(txs);
    var counts := Tally(pairs);
    forall st | st in ColumnsOf(counts) ensures st in Statuses(txs) {
      var key :| key in counts && key.1 == st;
      var i :| 0 <= i < |pairs| && pairs[i] == key;
      assert txs[i] in txs;
    }
    forall t | t in txs ensures t.paymentStatus in ColumnsOf(counts) {
      var i :| 0 <= i < |txs| && txs[i] == t;
      assert pairs[i] in pairs;
    }
  }

  /** The transaction count per customer and payment status, one row per
      customer with a transaction and one column per status that occurs:
      every cell is the number of that customer's transactions with that
      status, 0 for a combination that does not occur. */
  function PaymentSummary(txs: seq<Transaction>): (r: map<CustomerId, map<PaymentStatus, nat>>)
    ensures r.Keys == set t | t in txs :: t.customerId
    ensures forall id | id in r :: r[id].Keys == Statuses(txs)
    ensures forall id, st | id in r && st in r[id] :: r[id][st] == StatusRows(txs, id, st)
  {
    var counts := Tally(StatusPairs(txs));
    StatusPairsRows(txs);
    StatusPairsColumns(txs);
    assert forall id, st :: StatusRows(txs, id, st) == multiset(StatusPairs(txs))[(id, st)] by {
      forall id, st ensures StatusRows(txs, id, st) == multiset(StatusPairs(txs))[(id, st)] {
        StatusRowsIsMultiplicity(txs, id, st);
      }
    }
    Unstack(counts)
  }

  // ---------------------------------------------------------------------
  // The combined table

  /** A customer of the combined table: its ticket count, its transaction
      count per payment status and its number of paid transactions. */
  datatype FrictionRow = FrictionRow(ticketCount: nat, statusCounts: map<PaymentStatus, nat>, paidTx: nat)

  /** A row of zeros over the given status columns. */
  function ZeroRow(columns: set<PaymentStatus>): (r: map<PaymentStatus, nat>)
    ensures r.Keys == columns && forall st | st in r :: r[st] == 0
  {
    map st | st in columns :: 0
  }

  /** The row of customer `id`: its ticket count, its row of the payment
      summary or zeros when it has none, and its `paid` cell or 0 when there is
      no such column. */
  function JoinRow(ticketCount: nat, summary: map<CustomerId, map<PaymentStatus, nat>>, columns: set<PaymentStatus>, id: CustomerId): (r: FrictionRow)
    requires forall id | id in summary :: summary[id].Keys == columns
    ensures r.ticketCount == ticketCount
    ensures r.statusCounts.Keys == columns
    ensures id in summary ==> r.statusCounts == summary[id]
    ensures id !in summary ==> forall st | st in r.statusCounts :: r.statusCounts[st] == 0
    ensures r.paidTx == if Paid in columns then r.statusCounts[Paid] else 0
  {
    var counts := if id in summary then summary[id] else ZeroRow(columns);
    FrictionRow(ticketCount, counts, if Paid in columns then counts[Paid] else 0)
  }

  /** The cells of `row`, the row of customer `id`, count its transactions: there
      is one per status that occurs, holding the number of the customer's
      transactions with that status, and the paid count is the number with
      status "paid". */
  predicate JoinedCells(row: FrictionRow, txs: seq<Transaction>, id: CustomerId) {
    && row.statusCounts.Keys == Statuses(txs)
    && (forall st | st in row.statusCounts :: row.statusCounts[st] == StatusRows(txs, id, st))
    && row.paidTx == StatusRows(txs, id, Paid)
  }

  lemma JoinRowCells(ticketCount: nat, txs: seq<Transaction>, id: CustomerId)
    ensures JoinedCells(JoinRow(ticketCount, PaymentSummary(txs), Statuses(txs), id), txs, id)
  {
    var row := JoinRow(ticketCount, PaymentSummary(txs), Statuses(txs), id);
    if id !in PaymentSummary(txs) {
      forall st ensures StatusRows(txs, id, st) == 0 {
        NoTransactionsNoStatusRows(txs, id, st);
      }
    }
    if Paid !in Statuses(txs) {
      AbsentStatusNoRows(txs, id, Paid);
    }
  }

  /** The ticket counts left-joined to the payment summary, missing cells read
      as 0, with the `paid` column copied out (0 when no transaction is paid).
      The rows are the customers with a ticket; every row has every status
      that occurs; each cell counts that customer's transactions with that
      status, whether or not the customer has any. */
  function Combined(tickets: seq<SupportTicket>, txs: seq<Transaction>): (r: map<CustomerId, FrictionRow>)
    ensures r.Keys == set t | t in tickets :: t.customerId
    ensures forall id | id in r :: r[id].ticketCount == TicketRows(tickets, id) && r[id].ticketCount >= 1
    ensures forall id | id in r :: JoinedCells(r[id], txs, id)
  {
    var ticketCounts := TicketCounts(tickets);
    var summary := PaymentSummary(txs);
    var columns := Statuses(txs);
    var r := map id | id in ticketCounts :: JoinRow(ticketCounts[id], summary, columns, id);
    assert r.Keys == ticketCounts.Keys by {
      assert forall id :: id in r <==> id in ticketCounts;
    }
    assert forall id | id in r :: JoinedCells(r[id], txs, id) by {
      forall id | id in r ensures JoinedCells(r[id], txs, id) {
        JoinRowCells(ticketCounts[id], txs, id);
      }
    }
    r
  }

  lemma {:induction false} NoTransactionsNoStatusRows(txs: seq<Transaction>, id: CustomerId, st: PaymentStatus)
    requires id !in set t | t in txs :: t.customerId
    ensures StatusRows(txs, id, st) == 0
  {
    if txs != [] {
      assert txs[0] in txs;
      assert (set t | t in txs[1..] :: t.customerId) <= set t | t in txs :: t.customerId;
      NoTransactionsNoStatusRows(txs[1..], id, st);
    }
  }

  lemma {:induction false} AbsentStatusNoRows(txs: seq<Transaction>, id: CustomerId, st: PaymentStatus)
    requires st !in Statuses(txs)
    ensures StatusRows(txs, id, st) == 0
  {
    if txs != [] {
      assert txs[0] in txs;
      assert Statuses(txs[1..]) <= Statuses(txs);
      AbsentStatusNoRows(txs[1..], id, st);
    }
  }

  // ---------------------------------------------------------------------
  // Laws of the combined table

  /** The status counts of a row added up over the given status columns. */
  function RowTotal(counts: map<PaymentStatus, nat>, columns: seq<PaymentStatus>): int
    requires forall st | st in columns :: st in counts
  {
    if columns == [] then 0 else counts[columns[0]] + RowTotal(counts, columns[1..])
  }

  /** The status of every transaction, in order. */
  function StatusColumn(txs: seq<Transaction>): (r: seq<PaymentStatus>)
    ensures (set st | st in r) == Statuses(txs)
  {
    var r := seq(|txs|, i requires 0 <= i < |txs| => txs[i].paymentStatus);
    assert forall st | st in r :: st in Statuses(txs) by {
      forall st | st in r ensures st in Statuses(txs) {
        var i :| 0 <= i < |r| && r[i] == st;
        assert txs[i] in txs;
      }
    }
    assert forall t | t in txs :: t.paymentStatus in r by {
      forall t | t in txs ensures t.paymentStatus in r {
        var i :| 0 <= i < |txs| && txs[i] == t;
        assert r[i] == t.paymentStatus;
      }
    }
    r
  }

  /** Summed over all status columns, a customer's row gives the customer's
      number of transactions: every transaction has exactly one status. */
  lemma RowSumIsTransactionCount(tickets: seq<SupportTicket>, txs: seq<Transaction>, id: CustomerId)
    requires id in Combined(tickets, txs)
    ensures var columns := Distinct(StatusColumn(txs));
            && (forall st | st in columns :: st in Combined(tickets, txs)[id].statusCounts)
            && RowTotal(Combined(tickets, txs)[id].statusCounts, columns) == TransactionRows(txs, id)
  {
    var columns := Distinct(StatusColumn(txs));
    var counts := Combined(tickets, txs)[id].statusCounts;
    RowTotalIsStatusSum(txs, id, counts, columns);
    forall t | t in txs ensures t.paymentStatus in columns {
      assert t.paymentStatus in Statuses(txs);
      assert t.paymentStatus in set st | st in StatusColumn(txs);
      assert t.paymentStatus in set st | st in columns;
    }
    StatusSumIsTransactionRows(txs, id, columns);
  }

  function StatusSum(txs: seq<Transaction>, id: CustomerId, columns: seq<PaymentStatus>): int {
    if columns == [] then 0 else StatusRows(txs, id, columns[0]) + StatusSum(txs, id, columns[1..])
  }

  lemma {:induction false} RowTotalIsStatusSum(txs: seq<Transaction>, id: CustomerId, counts: map<PaymentStatus, nat>, columns: seq<PaymentStatus>)
    requires forall st | st in columns :: st in counts && counts[st] == StatusRows(txs, id, st)
    ensures RowTotal(counts, columns) == StatusSum(txs, id, columns)
  {
    if columns != [] {
      RowTotalIsStatusSum(txs, id, counts, columns[1..]);
    }
  }

  /** The number of positions of `st` in `columns`. */
  function Occurrences(columns: seq<PaymentStatus>, st: PaymentStatus): nat {
    if columns == [] then 0 else (if columns[0] == st then 1 else 0) + Occurrences(columns[1..], st)
  }

  lemma {:induction false} OccursOnce(columns: seq<PaymentStatus>, st: PaymentStatus)
    requires forall i, j | 0 <= i < j < |columns| :: columns[i] != columns[j]
    requires st in columns
    ensures Occurrences(columns, st) == 1
  {
    if columns[0] == st {
      NotOccurring(columns[1..], st);
    } else {
      OccursOnce(columns[1..], st);
    }
  }

  lemma {:induction false} NotOccurring(columns: seq<PaymentStatus>, st: PaymentStatus)
    requires st !in columns
    ensures Occurrences(columns, st) == 0
  {
    if columns != [] {
      NotOccurring(columns[1..], st);
    }
  }

  /** Adding one transaction in front adds, to the sum over the columns, one
      for each column holding its status when it belongs to `id`. */
  lemma {:induction false} StatusSumCons(txs: seq<Transaction>, id: CustomerId, columns: seq<PaymentStatus>)
    requires txs != []
    ensures StatusSum(txs, id, columns)
            == StatusSum(txs[1..], id, columns)
               + (if txs[0].customerId == id then Occurrences(columns, txs[0].paymentStatus) else 0)
  {
    if columns != [] {
      StatusSumCons(txs, id, columns[1..]);
    }
  }

  lemma {:induction false} StatusSumIsTransactionRows(txs: seq<Transaction>, id: CustomerId, columns: seq<PaymentStatus>)
    requires forall i, j | 0 <= i < j < |columns| :: columns[i] != columns[j]
    requires forall t | t in txs :: t.paymentStatus in columns
    ensures StatusSum(txs, id, columns) == TransactionRows(txs, id)
  {
    if txs == [] {
      StatusSumEmpty(id, columns);
    } else {
      StatusSumCons(txs, id, columns);
      assert txs[0] in txs;
      OccursOnce(columns, txs[0].paymentStatus);
      StatusSumIsTransactionRows(txs[1..], id, columns);
    }
  }

  lemma {:induction false} StatusSumEmpty(id: CustomerId, columns: seq<PaymentStatus>)
    ensures StatusSum([], id, columns) == 0
  {
    if columns != [] {
      StatusSumEmpty(id, columns[1..]);
    }
  }

  /** The paid-transaction count of every listed customer is its number of
      transactions with status "paid"; so it is 0 when no transaction at all
      is paid, the case in which the table has no "paid" column. */
  lemma PaidCountWithoutPaidColumn(tickets: seq<SupportTicket>, txs: seq<Transaction>)
    requires Paid !in Statuses(txs)
    ensures forall id | id in Combined(tickets, txs) :: Combined(tickets, txs)[id].paidTx == 0
  {
    forall id | id in Combined(tickets, txs) ensures Combined(tickets, txs)[id].paidTx == 0 {
      AbsentStatusNoRows(txs, id, Paid);
    }
  }

  /** A customer with tickets and no transactions reads 0 in every column. */
  lemma NoTransactionsZeroRow(tickets: seq<SupportTicket>, txs: seq<Transaction>, id: CustomerId)
    requires id in Combined(tickets, txs)
    requires forall t | t in txs :: t.customerId != id
    ensures forall st | st in Combined(tickets, txs)[id].statusCounts :: Combined(tickets, txs)[id].statusCounts[st] == 0
    ensures Combined(tickets, txs)[id].paidTx == 0
  {
    forall st ensures StatusRows(txs, id, st) == 0 {
      NoTransactionsNoStatusRows(txs, id, st);
    }
  }

  /** A customer without tickets is absent however many transactions it has,
      and `TicketRows` is positive exactly for the listed customers. */
  lemma ListedIffTicket(tickets: seq<SupportTicket>, txs: seq<Transaction>, id: CustomerId)
    ensures id in Combined(tickets, txs) <==> TicketRows(tickets, id) >= 1
  {
    if id !in Combined(tickets, txs) {
      NoTicketsNoRows(tickets, id);
    }
  }

  lemma {:induction false} NoTicketsNoRows(tickets: seq<SupportTicket>, id: CustomerId)
    requires id !in set t | t in tickets :: t.customerId
    ensures TicketRows(tickets, id) == 0
  {
    if tickets != [] {
      assert tickets[0] in tickets;
      assert (set t | t in tickets[1..] :: t.customerId) <= set t | t in tickets :: t.customerId;
      NoTicketsNoRows(tickets[1..], id);
    }
  }
}
