# Customer analytics dashboard: the aggregation core

The dashboard shows three tables built from its exported data: transactions,
sessions, customers and support tickets. Under the page layout and the charts,
each table comes from a short aggregation pipeline. This project restates those
pipelines as pure Dafny functions over sequences of records and proves the laws
they obey.

- **Revenue trend with anomalies** (`RevenueTrend`, `ZScore`). Paid
  transactions are truncated to their month. Their amounts are summed per
  month, and the months are listed in ascending order. A month is flagged as an
  anomaly when its z-score against all months (mean and sample standard
  deviation) exceeds 2 in absolute value. The flag is computed exactly in
  integers and proved equal to the real-valued definition.
- **Cohort retention** (`CohortRetention`). Customers are left-joined to their
  sessions. Each row gets the number of months between the signup month (the
  cohort) and the session month. Rows with month numbers 0 to 5 are kept. The
  table counts distinct customers per cohort (the cohort size) and per cohort
  and month number, reading 0 where a combination is absent. The rate of a cell
  is its count over the cohort size, in percent, as an exact ratio.
- **Support tickets against payment status** (`SupportFriction`). The table
  holds ticket rows per customer and transaction rows per customer and payment
  status, spread into one column per status. The ticket counts are left-joined
  to the status table and zero-filled. `paid_tx` reads the `paid` column, or 0
  when no such column exists.

Supporting modules:

- `Calendar`: timestamps, month truncation and month numbers.
- `Tables`: the record types.
- `Aggregation`: a group-by count, a distinct count per key, a pivot that fills
  missing cells with 0, and sums.

Amounts are integers (cents). Months are `(year, month)` pairs.

Where the behaviour of the code could be read more than one way, the model
follows the code:

- The size of a cohort is counted after the 0..5 filter (app.py:115 then
  app.py:117), not over all signups. A customer without sessions, or with
  sessions only outside those months, is therefore in no cohort. The model
  also proves that a cohort's size is at most its number of signups
  (`CohortRetention.CohortSizeAtMostSignups`).
- The retention table has a column only for the month numbers that occur in
  the kept rows (app.py:122), not always for all of 0..5.
- The z-score divides by the sample standard deviation, with divisor `n - 1`
  (app.py:60).
- The support table lists only customers with at least one ticket (app.py:157).
  Customers with transactions but no tickets are absent, not listed with a
  ticket count of 0.

## Model

| member | source | states |
|---|---|---|
| Calendar.SameMonthIff | app.py:49 | two timestamps truncate to the same month exactly when they agree on year and month |
| Calendar.TruncationRoundTrip | app.py:49 | the start of a month truncates back to that month; truncating a timestamp gives an instant not after it |
| Calendar.IndexOrder | app.py:55 | chronological order of months is the order of their month indices, and equal months have equal indices |
| Calendar.MonthNumberIsIndexDifference | app.py:110-113 | `(ay-cy)*12 + (am-cm)` is the difference of month indices: 0 exactly for the same month, negative exactly for an earlier month, and additive across three months |
| RevenueTrend.PaidTransactions | app.py:48 | keeps exactly the transactions whose status is `paid` |
| RevenueTrend.GroupByMonth | app.py:51-56 | one row per month present, strictly ascending; each month's total is the sum of that month's amounts; the grand total is preserved |
| RevenueTrend.AddToMonth | app.py:52-53 | adding an amount to a month keeps the table ascending, adds the month, raises that month's total and no other, and raises the grand total by the amount |
| RevenueTrend.MonthlyPaidRevenue | app.py:48-56 | strictly ascending months; exactly the months of paid transactions; each row's total is the paid amount of its month; the totals add to the whole paid amount |
| RevenueTrend.PaidFilterSums | app.py:48 | summing the filtered rows per month equals summing the paid amounts of the unfiltered rows |
| RevenueTrend.AmountsAppend | app.py:52-53 | per-month and overall sums split over concatenation of the transaction list |
| RevenueTrend.MonthTotalAppend | app.py:52-53 | the paid total of a month splits over concatenation |
| RevenueTrend.AscendingTablesEqual | app.py:51-56 | two strictly ascending tables with the same months and the same per-month amounts are equal |
| RevenueTrend.MonthlyPaidRevenueUnique | app.py:51-56 | any strictly ascending table with exactly the paid months and their paid totals is the output |
| RevenueTrend.MonthTotalOutsidePaidMonths | app.py:48-53 | a month without paid transactions has paid total 0 |
| RevenueTrend.UnpaidTransactionIgnored | app.py:48 | inserting a transaction that is not paid anywhere leaves the output unchanged |
| RevenueTrend.RowOrderIrrelevant | app.py:51-56 | any reordering of the transactions gives the same output |
| RevenueTrend.MonthTotalPermutation | app.py:52-53 | a month's paid total does not depend on row order |
| ZScore.AnomalyIsZScoreAboveTwo | app.py:59-63 | the integer test `(n-1)*d_i^2 > 4*sum d_j^2` (with `d_j = n*x_j - S`) holds exactly when `n >= 2`, the sample variance is positive and `(x_i - mean)^2 > 4*variance`; one value or zero variance is never flagged |
| ZScore.AnomalyFlags | app.py:62-63 | one flag per month, set exactly when that month's z-score exceeds 2 in absolute value |
| ZScore.RevenueTrendWithAnomalies | app.py:48-63 | the monthly paid revenue rows in order, each with its paid total and a flag set exactly when its z-score over all months exceeds 2 |
| ZScore.Totals | app.py:59-62 | definition (the `total_amount` column, position by position); its use is proved through `ZScore.RevenueTrendWithAnomalies` |
| ZScore.ShortSeriesNeverFlagged | app.py:59-63 | with at most five months no month can be flagged |
| ZScore.SpikeAfterFiveQuietMonthsIsFlagged | app.py:59-63 | the bound is tight: in `[0,0,0,0,0,60]` the last month is flagged |
| ZScore.ConstantSeriesNeverFlagged | app.py:60-63 | equal months (zero deviation) are never flagged |
| ZScore.FewMonthsNoAnomaly | app.py:48-63 | a revenue trend with at most five paid months has no anomaly |
| ZScore.SquaredDeviationScaled | app.py:62 | the squared scaled deviation of a month is `n^2` times its squared deviation from the mean |
| ZScore.SumOfSquaredDeviationsScaled | app.py:60 | the sum of squared scaled deviations is `n^2` times the sum of squared deviations from the mean |
| ZScore.DeviationsSumToZero | app.py:59 | the scaled deviations from the mean sum to zero |
| ZScore.DeviationBound | app.py:59-62 | one month's squared scaled deviation is at most `(n-1)/n` of the sum of all of them |
| ZScore.SquareOfSumBound | app.py:60 | the square of a sum of `k` values is at most `k` times their sum of squares |
| CohortRetention.SessionMonths | app.py:101-108 | exactly the activity months of the customer's sessions; empty exactly when the customer has no session |
| CohortRetention.JoinCustomer | app.py:103-108 | which rows the left merge yields for one customer: its id and cohort with the activity month of one of its sessions, or with no month exactly when it has no session |
| CohortRetention.LeftJoin | app.py:103-108 | a row is in the join exactly when it is a join row of some customer |
| CohortRetention.InWindow | app.py:110-115 | every kept row has month number 0..5, and a row is kept exactly when some joined row has that defined month number |
| CohortRetention.WindowMembership | app.py:100-115 | a row survives the filter exactly when its customer signed up in its cohort and has a session its month number of months later, that number being 0..5 |
| CohortRetention.InactiveCustomerUncounted | app.py:103-123 | a customer without sessions, or with sessions only outside months 0..5, leaves no row and is counted in no cohort and no cell |
| CohortRetention.CohortPairs | app.py:117 | definition (the (cohort, customer) columns of the kept rows); the counts over it are proved in `CohortRetention.CohortSizes` |
| CohortRetention.CellPairs | app.py:120 | definition (the ((cohort, month number), customer) columns of the kept rows); the counts over it are proved in `CohortRetention.RetentionCounts` |
| CohortRetention.CohortSizes | app.py:115-117 | one entry per cohort with a kept row; each entry is the number of distinct customers of that cohort with a session in months 0..5, and at least 1 |
| CohortRetention.RetentionCounts | app.py:115-123 | one row per cohort with a kept row; every row has a column for every month number that occurs; each cell is the number of distinct customers of that cohort with a session at that month number, 0 when there is none |
| CohortRetention.CellAtMostCohortSize | app.py:117-123 | every cell's cohort has a size, and the cell count is at most that size |
| CohortRetention.CohortSizeAtMostSignups | app.py:100-117 | a cohort's size is at most the number of customers who signed up in that month |
| CohortRetention.NoSessionsNoCohorts | app.py:103-123 | without sessions both the cohort sizes and the retention table are empty |
| CohortRetention.SignupMonthSessionCounted | app.py:110-123 | a customer with a session in its signup month makes cell (cohort, 0) present and at least 1 |
| CohortRetention.RetentionRates | app.py:125 | the rate table has the cells of the retention table, and every row's cohort has a size |
| CohortRetention.RateInPercentRange | app.py:125 | every rate is its cell count times 100 over its cohort size, and lies in [0, 100] |
| CohortRetention.RateBounds | app.py:125 | a count at most the size gives a rate in [0, 100] that times the size is 100 times the count |
| SupportFriction.TicketCounts | app.py:148 | one entry per customer with a ticket; each is that customer's number of ticket rows, and at least 1 |
| SupportFriction.PaymentSummary | app.py:150-155 | one row per customer with a transaction; every row has a column for every status that occurs; each cell is the number of that customer's transactions with that status, 0 when there is none |
| SupportFriction.ZeroRow | app.py:158 | definition (the zero fill: every status column reads 0); its use is proved in `SupportFriction.Combined` |
| SupportFriction.JoinRow | app.py:157-160 | definition of one merged row, whose cells are tied to the raw transactions by `SupportFriction.Combined`: the row carries the ticket count; its status cells are the customer's summary row, or all 0 when the customer has no transactions; `paid_tx` is the `paid` cell or 0 without that column |
| SupportFriction.Combined | app.py:148-160 | exactly the customers with tickets; each row has its ticket count (at least 1), every status column with the customer's count for that status, and `paid_tx` equal to the number of its paid transactions |
| SupportFriction.RowSumIsTransactionCount | app.py:150-158 | the status cells of a combined row add to the customer's number of transactions |
| SupportFriction.PaidCountWithoutPaidColumn | app.py:160 | when no transaction is paid, `paid_tx` is 0 for every customer |
| SupportFriction.NoTransactionsZeroRow | app.py:157-160 | a customer with tickets but no transactions reads 0 in every status column and in `paid_tx` |
| SupportFriction.ListedIffTicket | app.py:148-157 | a customer is in the combined table exactly when it has at least one ticket |
| SupportFriction.StatusSumIsTransactionRows | app.py:151-153 | over statuses without repeats that cover all transactions, the per-status counts add to the transaction count |
| SupportFriction.TicketRowsIsMultiplicity | app.py:148 | a customer's ticket rows are its multiplicity in the ticket id column |
| SupportFriction.StatusRowsIsMultiplicity | app.py:151-153 | a (customer, status) count is the multiplicity of that pair |
| Aggregation.Tally | app.py:148-153 | a group-by count: the keys are the values present, each with its multiplicity, at least 1 |
| Aggregation.Distinct | app.py:153 | the distinct values of a column: no repeats, the same set of values |
| Aggregation.GroupDistinct | app.py:117-120 | per key, the distinct values paired with it, without repeats |
| Aggregation.CountDistinct | app.py:117-121 | a group-by distinct count: the keys present, each with the size of its set of values, at least 1 |
| Aggregation.Unstack | app.py:122 | definition of `unstack(fill_value=0)`, used here and at app.py:153: every row present gets every column present, each cell is the pair's value, or 0 when the pair is absent; proved about the tables in `CohortRetention.RetentionCounts` and `SupportFriction.PaymentSummary` |
| Aggregation.DistinctCardinality | app.py:117 | a column without repeats has as many distinct values as entries |
| Aggregation.SumAppend | app.py:59 | the sum behind the mean of the monthly totals splits over concatenation |

## Left out

- Page setup, headers, information boxes and messages are not modelled. These are presentation (app.py:12-15, app.py:46, app.py:83-92 and the like).
- Downloading and unzipping the data, CSV parsing and result caching are not modelled (app.py:20-40). These are network and file I/O inside library code. The tables are parameters of the model.
- Chart construction and rendering are not modelled (app.py:65-81, app.py:162-174). This is presentation.
- The products table is loaded but never used.
- Missing timestamps and missing amounts are not modelled. Every record has a timestamp and an integer amount in cents, where the source holds floating-point amounts.
- A null `transaction_id`, which pandas `count()` would skip, is not modelled. Every transaction counts.
- Null customer ids and null payment statuses are not modelled. Both are plain strings here. In the source, grouping drops rows whose key is null, and `nunique` skips null ids. A ticket with a null customer id is counted nowhere (app.py:148). A transaction with a null status falls in no status column (app.py:151-153), so there its customer's cells would add up to fewer than its transactions, which `SupportFriction.RowSumIsTransactionCount` does not allow for. The cohort counts at app.py:117 and app.py:120 skip null ids.
- CohortRetention.JoinCustomer: the contract states which rows the merge yields, not how many times each occurs. The body gives one row per session, as the merge does, but only distinct counts are taken downstream, and those do not depend on multiplicity.
- ZScore.AnomalyFlags: the z-score value itself is not produced. The flag is exact, while the source compares floating-point values, so results can differ for months lying within rounding error of the threshold.
- CohortRetention.RetentionRates: the rate is an exact ratio, not the floating-point value rounded to three decimals and multiplied by 100 (app.py:125).
- CohortRetention.RetentionCounts: the row and column order of the pivot tables is not modelled. Tables are maps, so only their contents are stated. The order of the revenue trend is modelled.
- SupportFriction.Combined: the floating-point column types that the zero fill produces are not modelled. Counts stay natural numbers.
