/** Cohort retention over the first six months of a customer's life.  A
    customer's cohort is the month of signup; every session is placed at the
    number of months between the cohort and the month the session started.
    Customers are left-joined to their sessions, the rows whose month number
    lies in 0..5 are kept, and distinct customers are counted per cohort (the
    cohort size) and per cohort and month number (the retention table, absent
    combinations reading 0).  The rate of a cell is its count over its
    cohort's size, as an exact ratio in percent. */
module CohortRetention {
  import opened Aggregation
  import opened Calendar
  import opened Tables

  /** The last month number kept; the table covers month numbers 0 to 5. */
  const LastOffset: int := 5

  predicate InRange(k: int) {
    0 <= k <= LastOffset
  }

  function CohortMonth(c: Customer): Month {
    MonthOf(c.signupDate)
  }

  function ActivityMonth(s: Session): Month {
    MonthOf(s.sessionStart)
  }

  // ---------------------------------------------------------------------
  // The left join of customers to sessions

  /** A row of the join: a customer with the activity month of one of its
      sessions, or with none when the customer has no session. */
  datatype JoinedRow = JoinedRow(customerId: CustomerId, cohortMonth: Month, activityMonth: Option<Month>)

  /** The activity months of the sessions of customer `id`, in session order. */
  function SessionMonths(id: CustomerId, sessions: seq<Session>): (r: seq<Month>)
    ensures forall m :: m in r <==> exists s | s in sessions :: s.customerId == id && ActivityMonth(s) == m
    ensures r == [] <==> forall s | s in sessions :: s.customerId != id
  {
    if sessions == [] then []
    else
      var rest := SessionMonths(id, sessions[1..]);
      assert forall s | s in sessions :: s == sessions[0] || s in sessions[1..];
      if sessions[0].customerId == id then [ActivityMonth(sessions[0])] + rest else rest
  }

  /** `row` is one of the rows the join produces for customer `c`. */
  predicate JoinsTo(c: Customer, sessions: seq<Session>, row: JoinedRow) {
    && row.customerId == c.customerId
    && row.cohortMonth == CohortMonth(c)
    && match row.activityMonth
       case None => forall s | s in sessions :: s.customerId != c.customerId
       case Some(m) => exists s | s in sessions :: s.customerId == c.customerId && ActivityMonth(s) == m
  }

  /** The rows of one customer: one per session of the customer, or a single
      row without an activity month when it has none. */
  function JoinCustomer(c: Customer, sessions: seq<Session>): (r: seq<JoinedRow>)
    ensures forall row :: row in r <==> JoinsTo(c, sessions, row)
  {
    var months := SessionMonths(c.customerId, sessions);
    if months == [] then [JoinedRow(c.customerId, CohortMonth(c), None)]
    else
      var r := seq(|months|, i requires 0 <= i < |months| => JoinedRow(c.customerId, CohortMonth(c), Some(months[i])));
      assert forall row | JoinsTo(c, sessions, row) && row.activityMonth.Some? :: row in r by {
        forall row | JoinsTo(c, sessions, row) && row.activityMonth.Some? ensures row in r {
          assert row.activityMonth.value in months;
          var i :| 0 <= i < |months| && months[i] == row.activityMonth.value;
          assert r[i] == row;
        }
      }
      assert forall row | row in r :: JoinsTo(c, sessions, row) by {
        forall row | row in r ensures JoinsTo(c, sessions, row) {
          var i :| 0 <= i < |r| && r[i] == row;
          assert months[i] in months;
        }
      }
      r
  }

  /** The left join of customers to sessions on the customer id. */
  function LeftJoin(customers: seq<Customer>, sessions: seq<Session>): (r: seq<JoinedRow>)
    ensures forall row :: row in r <==> exists c | c in customers :: JoinsTo(c, sessions, row)
  {
    if customers == [] then []
    else
      var rest := LeftJoin(customers[1..], sessions);
      assert forall c | c in customers :: c == customers[0] || c in customers[1..];
      JoinCustomer(customers[0], sessions) + rest
  }

  // ---------------------------------------------------------------------
  // Month numbers and the 0..5 window

  /** The month number of a joined row; undefined for a customer without sessions. */
  function MonthNumberOf(row: JoinedRow): Option<int> {
    match row.activityMonth
    case None => None
    case Some(a) => Some(MonthNumber(row.cohortMonth, a))
  }

  /** A joined row kept by the window, with its month number. */
  datatype OffsetRow = OffsetRow(customerId: CustomerId, cohortMonth: Month, monthNumber: int)

  /** The rows whose month number is defined and lies in 0..5; an undefined
      month number fails both comparisons and is dropped. */
  function InWindow(rows: seq<JoinedRow>): (r: seq<OffsetRow>)
    ensures forall o | o in r :: InRange(o.monthNumber)
    ensures forall o :: o in r <==>
      && InRange(o.monthNumber)
      && exists row | row in rows :: MonthNumberOf(row) == Some(o.monthNumber)
                                     && row.customerId == o.customerId && row.cohortMonth == o.cohortMonth
  {
    if rows == [] then []
    else
      var rest := InWindow(rows[1..]);
      assert forall row | row in rows :: row == rows[0] || row in rows[1..];
      var row := rows[0];
      match MonthNumberOf(row)
      case Some(k) =>
        if InRange(k) then [OffsetRow(row.customerId, row.cohortMonth, k)] + rest else rest
      case None => rest
  }

  /** The kept rows of the join of `customers` and `sessions`. */
  function Window(customers: seq<Customer>, sessions: seq<Session>): seq<OffsetRow> {
    InWindow(LeftJoin(customers, sessions))
  }

  // ---------------------------------------------------------------------
  // The reference definitions, on the raw tables

  /** Customer `id` signed up in `cohort` and has a session `k` months later. */
  predicate Active(customers: seq<Customer>, sessions: seq<Session>, id: CustomerId, cohort: Month, k: int) {
    exists c, s | c in customers && s in sessions ::
      && c.customerId == id && s.customerId == id
      && CohortMonth(c) == cohort && MonthNumber(cohort, ActivityMonth(s)) == k
  }

  /** The customers of `cohort` with a session between `lo` and `hi` months after it. */
  function ActiveIds(customers: seq<Customer>, sessions: seq<Session>, cohort: Month, lo: int, hi: int): set<CustomerId> {
    set c, s | c in customers && s in sessions && c.customerId == s.customerId && CohortMonth(c) == cohort
                 && lo <= MonthNumber(cohort, ActivityMonth(s)) <= hi :: c.customerId
  }

  /** The cohorts with at least one session in their first six months. */
  function ActiveCohorts(customers: seq<Customer>, sessions: seq<Session>): set<Month> {
    set c, s | c in customers && s in sessions && c.customerId == s.customerId
                 && InRange(MonthNumber(CohortMonth(c), ActivityMonth(s))) :: CohortMonth(c)
  }

  /** The month numbers in 0..5 at which some customer has a session. */
  function ActiveOffsets(customers: seq<Customer>, sessions: seq<Session>): set<int> {
    set c, s | c in customers && s in sessions && c.customerId == s.customerId
                 && InRange(MonthNumber(CohortMonth(c), ActivityMonth(s))) :: MonthNumber(CohortMonth(c), ActivityMonth(s))
  }

  /** The customers who signed up in `cohort`, whether or not they have sessions. */
  function SignupIds(customers: seq<Customer>, cohort: Month): set<CustomerId> {
    set c | c in customers && CohortMonth(c) == cohort :: c.customerId
  }

  /** A row is kept exactly when its customer signed up in its cohort and has a
      session its month number of months later, that number being in 0..5: a
      customer without sessions, or with sessions only outside the window,
      leaves no row. */
  lemma WindowMembership(customers: seq<Customer>, sessions: seq<Session>, o: OffsetRow)
    ensures o in Window(customers, sessions) <==>
            InRange(o.monthNumber) && Active(customers, sessions, o.customerId, o.cohortMonth, o.monthNumber)
  {
    var rows := LeftJoin(customers, sessions);
    if o in Window(customers, sessions) {
      var row :| row in rows && MonthNumberOf(row) == Some(o.monthNumber)
                 && row.customerId == o.customerId && row.cohortMonth == o.cohortMonth;
      var c :| c in customers && JoinsTo(c, sessions, row);
      var s :| s in sessions && s.customerId == c.customerId && ActivityMonth(s) == row.activityMonth.value;
      assert c in customers && s in sessions && CohortMonth(c) == o.cohortMonth;
    }
    if InRange(o.monthNumber) && Active(customers, sessions, o.customerId, o.cohortMonth, o.monthNumber) {
      var c, s :| c in customers && s in sessions
                  && c.customerId == o.customerId && s.customerId == o.customerId
                  && CohortMonth(c) == o.cohortMonth && MonthNumber(o.cohortMonth, ActivityMonth(s)) == o.monthNumber;
      var row := JoinedRow(c.customerId, CohortMonth(c), Some(ActivityMonth(s)));
      assert JoinsTo(c, sessions, row);
      assert row in rows;
      assert MonthNumberOf(row) == Some(o.monthNumber);
    }
  }

  /** `w` holds exactly the rows the window keeps. */
  ghost predicate IsWindow(w: seq<OffsetRow>, customers: seq<Customer>, sessions: seq<Session>) {
    forall o :: o in w <==> InRange(o.monthNumber) && Active(customers, sessions, o.customerId, o.cohortMonth, o.monthNumber)
  }

  lemma WindowIsWindow(customers: seq<Customer>, sessions: seq<Session>)
    ensures IsWindow(Window(customers, sessions), customers, sessions)
  {
    forall o ensures o in Window(customers, sessions) <==>
                     InRange(o.monthNumber) && Active(customers, sessions, o.customerId, o.cohortMonth, o.monthNumber)
    {
      WindowMembership(customers, sessions, o);
    }
  }

  // ---------------------------------------------------------------------
  // Cohort sizes and the retention table

  function CohortPairs(w: seq<OffsetRow>): (r: seq<(Month, CustomerId)>)
    ensures forall p :: p in r <==> exists o | o in w :: p == (o.cohortMonth, o.customerId)
  {
    var r := seq(|w|, i requires 0 <= i < |w| => (w[i].cohortMonth, w[i].customerId));
    assert forall o | o in w :: (o.cohortMonth, o.customerId) in r by {
      forall o | o in w ensures (o.cohortMonth, o.customerId) in r {
        var i :| 0 <= i < |w| && w[i] == o;
        assert r[i] == (o.cohortMonth, o.customerId);
      }
    }
    r
  }

  function CellPairs(w: seq<OffsetRow>): (r: seq<((Month, int), CustomerId)>)
    ensures forall p :: p in r <==> exists o | o in w :: p == ((o.cohortMonth, o.monthNumber), o.customerId)
  {
    var r := seq(|w|, i requires 0 <= i < |w| => ((w[i].cohortMonth, w[i].monthNumber), w[i].customerId));
    assert forall o | o in w :: ((o.cohortMonth, o.monthNumber), o.customerId) in r by {
      forall o | o in w ensures ((o.cohortMonth, o.monthNumber), o.customerId) in r {
        var i :| 0 <= i < |w| && w[i] == o;
        assert r[i] == ((o.cohortMonth, o.monthNumber), o.customerId);
      }
    }
    r
  }

  /** The customers of a cohort in the window are its active customers. */
  lemma CohortGroup(w: seq<OffsetRow>, customers: seq<Customer>, sessions: seq<Session>, m: Month)
    requires IsWindow(w, customers, sessions)
    ensures ValuesOf(CohortPairs(w), m) == ActiveIds(customers, sessions, m, 0, LastOffset)
  {
    var lhs := ValuesOf(CohortPairs(w), m);
    var rhs := ActiveIds(customers, sessions, m, 0, LastOffset);
    forall x | x in lhs ensures x in rhs {
      var o :| o in w && o.cohortMonth == m && o.customerId == x;
      var c, s :| c in customers && s in sessions && c.customerId == x && s.customerId == x
                  && CohortMonth(c) == m && MonthNumber(m, ActivityMonth(s)) == o.monthNumber;
    }
    forall x | x in rhs ensures x in lhs {
      var c, s :| c in customers && s in sessions && c.customerId == s.customerId && CohortMonth(c) == m
                  && 0 <= MonthNumber(m, ActivityMonth(s)) <= LastOffset && c.customerId == x;
      assert OffsetRow(x, m, MonthNumber(m, ActivityMonth(s))) in w;
      assert (m, x) in CohortPairs(w);
    }
  }

  /** The cohorts in the window are the active cohorts. */
  lemma WindowCohorts(w: seq<OffsetRow>, customers: seq<Customer>, sessions: seq<Session>)
    requires IsWindow(w, customers, sessions)
    ensures KeysOf(CohortPairs(w)) == ActiveCohorts(customers, sessions)
  {
    forall m | m in KeysOf(CohortPairs(w)) ensures m in ActiveCohorts(customers, sessions) {
      var o :| o in w && o.cohortMonth == m;
      var c, s :| c in customers && s in sessions && c.customerId == o.customerId && s.customerId == o.customerId
                  && CohortMonth(c) == m && MonthNumber(m, ActivityMonth(s)) == o.monthNumber;
    }
    forall m | m in ActiveCohorts(customers, sessions) ensures m in KeysOf(CohortPairs(w)) {
      var c, s :| c in customers && s in sessions && c.customerId == s.customerId
                  && InRange(MonthNumber(CohortMonth(c), ActivityMonth(s))) && CohortMonth(c) == m;
      assert OffsetRow(c.customerId, m, MonthNumber(m, ActivityMonth(s))) in w;
      assert (m, c.customerId) in CohortPairs(w);
    }
  }

  lemma SizesOfWindow(w: seq<OffsetRow>, customers: seq<Customer>, sessions: seq<Session>)
    requires IsWindow(w, customers, sessions)
    ensures CountDistinct(CohortPairs(w)).Keys == ActiveCohorts(customers, sessions)
    ensures forall m | m in CountDistinct(CohortPairs(w)) ::
              CountDistinct(CohortPairs(w))[m] == |ActiveIds(customers, sessions, m, 0, LastOffset)|
  {
    WindowCohorts(w, customers, sessions);
    forall m | m in CountDistinct(CohortPairs(w))
      ensures CountDistinct(CohortPairs(w))[m] == |ActiveIds(customers, sessions, m, 0, LastOffset)|
    {
      CohortGroup(w, customers, sessions, m);
    }
  }

  /** The number of distinct customers per cohort among the kept rows: the
      cohorts listed are those with a session in their first six months, and
      each counts the customers of the cohort with such a session. */
  function CohortSizes(customers: seq<Customer>, sessions: seq<Session>): (r: map<Month, nat>)
    ensures r.Keys == ActiveCohorts(customers, sessions)
    ensures forall m | m in r :: r[m] == |ActiveIds(customers, sessions, m, 0, LastOffset)| && r[m] >= 1
  {
    var w := Window(customers, sessions);
    WindowIsWindow(customers, sessions);
    SizesOfWindow(w, customers, sessions);
    CountDistinct(CohortPairs(w))
  }

  /** The customers of a cohort seen at month number `k` (in 0..5) in the window
      are its customers with a session exactly `k` months after it. */
  lemma CellGroup(w: seq<OffsetRow>, customers: seq<Customer>, sessions: seq<Session>, m: Month, k: int)
    requires IsWindow(w, customers, sessions) && InRange(k)
    ensures ValuesOf(CellPairs(w), (m, k)) == ActiveIds(customers, sessions, m, k, k)
  {
    var lhs := ValuesOf(CellPairs(w), (m, k));
    var rhs := ActiveIds(customers, sessions, m, k, k);
    forall x | x in lhs ensures x in rhs {
      var o :| o in w && o.cohortMonth == m && o.monthNumber == k && o.customerId == x;
      var c, s :| c in customers && s in sessions && c.customerId == x && s.customerId == x
                  && CohortMonth(c) == m && MonthNumber(m, ActivityMonth(s)) == k;
    }
    forall x | x in rhs ensures x in lhs {
      var c, s :| c in customers && s in sessions && c.customerId == s.customerId && CohortMonth(c) == m
                  && k <= MonthNumber(m, ActivityMonth(s)) <= k && c.customerId == x;
      assert OffsetRow(x, m, k) in w;
      assert ((m, k), x) in CellPairs(w);
    }
  }

  /** The cohorts of the (cohort, month number) combinations of the window are
      the active cohorts. */
  lemma WindowCellRows(w: seq<OffsetRow>, customers: seq<Customer>, sessions: seq<Session>)
    requires IsWindow(w, customers, sessions)
    ensures RowsOf(CountDistinct(CellPairs(w))) == ActiveCohorts(customers, sessions)
  {
    var counts := CountDistinct(CellPairs(w));
    forall m | m in RowsOf(counts) ensures m in ActiveCohorts(customers, sessions) {
      var key :| key in counts && key.0 == m;
      var o :| o in w && (o.cohortMonth, o.monthNumber) == key;
      var c, s :| c in customers && s in sessions && c.customerId == o.customerId && s.customerId == o.customerId
                  && CohortMonth(c) == m && MonthNumber(m, ActivityMonth(s)) == o.monthNumber;
    }
    forall m | m in ActiveCohorts(customers, sessions) ensures m in RowsOf(counts) {
      var c, s :| c in customers && s in sessions && c.customerId == s.customerId
                  && InRange(MonthNumber(CohortMonth(c), ActivityMonth(s))) && CohortMonth(c) == m;
      var k := MonthNumber(m, ActivityMonth(s));
      assert OffsetRow(c.customerId, m, k) in w;
      assert ((m, k), c.customerId) in CellPairs(w);
      assert (m, k) in counts;
    }
  }

  /** The month numbers of the (cohort, month number) combinations of the
      window are the active month numbers. */
  lemma WindowCellColumns(w: seq<OffsetRow>, customers: seq<Customer>, sessions: seq<Session>)
    requires IsWindow(w, customers, sessions)
    ensures ColumnsOf(CountDistinct(CellPairs(w))) == ActiveOffsets(customers, sessions)
  {
    var counts := CountDistinct(CellPairs(w));
    forall k | k in ColumnsOf(counts) ensures k in ActiveOffsets(customers, sessions) {
      var key :| key in counts && key.1 == k;
      var o :| o in w && (o.cohortMonth, o.monthNumber) == key;
      var c, s :| c in customers && s in sessions && c.customerId == o.customerId && s.customerId == o.customerId
                  && CohortMonth(c) == o.cohortMonth && MonthNumber(o.cohortMonth, ActivityMonth(s)) == k;
    }
    forall k | k in ActiveOffsets(customers, sessions) ensures k in ColumnsOf(counts) {
      var c, s :| c in customers && s in sessions && c.customerId == s.customerId
                  && InRange(MonthNumber(CohortMonth(c), ActivityMonth(s))) && MonthNumber(CohortMonth(c), ActivityMonth(s)) == k;
      assert OffsetRow(c.customerId, CohortMonth(c), k) in w;
      assert ((CohortMonth(c), k), c.customerId) in CellPairs(w);
      assert (CohortMonth(c), k) in counts;
    }
  }

  /** Every active month number lies in 0..5. */
  lemma ActiveOffsetInRange(customers: seq<Customer>, sessions: seq<Session>, k: int)
    requires k in ActiveOffsets(customers, sessions)
    ensures InRange(k)
  {
    var c, s :| c in customers && s in sessions && c.customerId == s.customerId
                && InRange(MonthNumber(CohortMonth(c), ActivityMonth(s))) && MonthNumber(CohortMonth(c), ActivityMonth(s)) == k;
  }

  /** Widening the range of month numbers keeps every customer counted. */
  lemma ActiveIdsWiden(customers: seq<Customer>, sessions: seq<Session>, m: Month, lo: int, hi: int, lo': int, hi': int)
    requires lo' <= lo && hi <= hi'
    ensures ActiveIds(customers, sessions, m, lo, hi) <= ActiveIds(customers, sessions, m, lo', hi')
  {
    forall x | x in ActiveIds(customers, sessions, m, lo, hi) ensures x in ActiveIds(customers, sessions, m, lo', hi') {
      var c, s :| c in customers && s in sessions && c.customerId == s.customerId && CohortMonth(c) == m
                  && lo <= MonthNumber(m, ActivityMonth(s)) <= hi && c.customerId == x;
    }
  }

  lemma CountsOfWindow(w: seq<OffsetRow>, customers: seq<Customer>, sessions: seq<Session>)
    requires IsWindow(w, customers, sessions)
    ensures RowsOf(CountDistinct(CellPairs(w))) == ActiveCohorts(customers, sessions)
    ensures ColumnsOf(CountDistinct(CellPairs(w))) == ActiveOffsets(customers, sessions)
    ensures forall m, k | k in ActiveOffsets(customers, sessions) ::
              (if (m, k) in CountDistinct(CellPairs(w)) then CountDistinct(CellPairs(w))[(m, k)] else 0)
              == |ActiveIds(customers, sessions, m, k, k)|
  {
    WindowCellRows(w, customers, sessions);
    WindowCellColumns(w, customers, sessions);
    forall m, k | k in ActiveOffsets(customers, sessions)
      ensures (if (m, k) in CountDistinct(CellPairs(w)) then CountDistinct(CellPairs(w))[(m, k)] else 0)
              == |ActiveIds(customers, sessions, m, k, k)|
    {
      ActiveOffsetInRange(customers, sessions, k);
      CellGroup(w, customers, sessions, m, k);
    }
  }

  /** The number of distinct customers per cohort and month number, spread into
      one row per cohort with one column per month number, missing combinations
      filled with 0: the rows are the active cohorts, every row has every active
      month number, and each cell counts the customers of the cohort with a
      session exactly that many months after it. */
  function RetentionCounts(customers: seq<Customer>, sessions: seq<Session>): (t: map<Month, map<int, nat>>)
    ensures t.Keys == ActiveCohorts(customers, sessions)
    ensures forall m | m in t :: t[m].Keys == ActiveOffsets(customers, sessions)
    ensures forall m, k | m in t && k in t[m] :: t[m][k] == |ActiveIds(customers, sessions, m, k, k)|
  {
    var w := Window(customers, sessions);
    WindowIsWindow(customers, sessions);
    CountsOfWindow(w, customers, sessions);
    Unstack(CountDistinct(CellPairs(w)))
  }

  /** A cell never exceeds its cohort's size: both count customers of the same
      rows, the cell only those at one month number. */
  lemma CellAtMostCohortSize(customers: seq<Customer>, sessions: seq<Session>, m: Month, k: int)
    requires m in RetentionCounts(customers, sessions) && k in RetentionCounts(customers, sessions)[m]
    ensures m in CohortSizes(customers, sessions)
    ensures RetentionCounts(customers, sessions)[m][k] <= CohortSizes(customers, sessions)[m]
  {
    ActiveOffsetInRange(customers, sessions, k);
    ActiveIdsWiden(customers, sessions, m, k, k, 0, LastOffset);
    SubsetCardinality(ActiveIds(customers, sessions, m, k, k), ActiveIds(customers, sessions, m, 0, LastOffset));
  }

  /** The cohort size counts only customers with a session in months 0..5 of
      their cohort, so it is at most the number of customers who signed up in
      that month, and smaller when some have no such session. */
  lemma CohortSizeAtMostSignups(customers: seq<Customer>, sessions: seq<Session>, m: Month)
    requires m in CohortSizes(customers, sessions)
    ensures CohortSizes(customers, sessions)[m] <= |SignupIds(customers, m)|
  {
    ActiveAreSignups(customers, sessions, m);
    SubsetCardinality(ActiveIds(customers, sessions, m, 0, LastOffset), SignupIds(customers, m));
  }

  lemma ActiveAreSignups(customers: seq<Customer>, sessions: seq<Session>, m: Month)
    ensures ActiveIds(customers, sessions, m, 0, LastOffset) <= SignupIds(customers, m)
  {
    forall x | x in ActiveIds(customers, sessions, m, 0, LastOffset) ensures x in SignupIds(customers, m) {
      var c, s :| c in customers && s in sessions && c.customerId == s.customerId && CohortMonth(c) == m
                  && 0 <= MonthNumber(m, ActivityMonth(s)) <= LastOffset && c.customerId == x;
    }
  }

  /** Without any session no cohort and no cell appears, however many
      customers signed up. */
  lemma NoSessionsNoCohorts(customers: seq<Customer>)
    ensures CohortSizes(customers, []) == map[]
    ensures RetentionCounts(customers, []) == map[]
  {
    assert ActiveCohorts(customers, []) == {};
  }

  /** A customer id none of whose sessions lies 0..5 months after its signup
      month (in particular one without sessions) leaves no row in the window
      and is counted in no cohort and no cell. */
  lemma InactiveCustomerUncounted(customers: seq<Customer>, sessions: seq<Session>, id: CustomerId)
    requires forall c, s | c in customers && s in sessions && c.customerId == id && s.customerId == id ::
               !InRange(MonthNumber(CohortMonth(c), ActivityMonth(s)))
    ensures forall o | o in Window(customers, sessions) :: o.customerId != id
    ensures forall m, k | InRange(k) :: id !in ActiveIds(customers, sessions, m, k, k)
    ensures forall m :: id !in ActiveIds(customers, sessions, m, 0, LastOffset)
  {
    forall o | o in Window(customers, sessions) ensures o.customerId != id {
      WindowMembership(customers, sessions, o);
    }
  }

  /** A customer with a session in its signup month is counted at month number 0. */
  lemma SignupMonthSessionCounted(customers: seq<Customer>, sessions: seq<Session>, c: Customer, s: Session)
    requires c in customers && s in sessions && c.customerId == s.customerId
    requires ActivityMonth(s) == CohortMonth(c)
    ensures CohortMonth(c) in RetentionCounts(customers, sessions)
    ensures 0 in RetentionCounts(customers, sessions)[CohortMonth(c)]
    ensures RetentionCounts(customers, sessions)[CohortMonth(c)][0] >= 1
  {
    MonthNumberIsIndexDifference(CohortMonth(c), ActivityMonth(s), ActivityMonth(s));
    assert CohortMonth(c) in ActiveCohorts(customers, sessions);
    assert 0 in ActiveOffsets(customers, sessions);
    assert c.customerId in ActiveIds(customers, sessions, CohortMonth(c), 0, 0);
    SubsetCardinality({c.customerId}, ActiveIds(customers, sessions, CohortMonth(c), 0, 0));
  }

  // ---------------------------------------------------------------------
  // Retention rates

  /** The retention rate of every cell in percent: its count over its cohort's
      size, times 100, kept as an exact ratio. */
  function RetentionRates(customers: seq<Customer>, sessions: seq<Session>): (r: map<Month, map<int, real>>)
    ensures r.Keys == RetentionCounts(customers, sessions).Keys
    ensures forall m | m in r :: m in CohortSizes(customers, sessions) && r[m].Keys == RetentionCounts(customers, sessions)[m].Keys
  {
    RatesOf(RetentionCounts(customers, sessions), CohortSizes(customers, sessions))
  }

  /** Each cell of `counts` as a percentage of its row's size in `sizes`. */
  function RatesOf(counts: map<Month, map<int, nat>>, sizes: map<Month, nat>): map<Month, map<int, real>>
    requires forall m | m in counts :: m in sizes && sizes[m] >= 1
  {
    map m | m in counts :: map k | k in counts[m] :: Rate(counts[m][k], sizes[m])
  }

  /** Every rate lies in 0..100 and is the percentage of the cell's count in
      its cohort's size. */
  lemma RateInPercentRange(customers: seq<Customer>, sessions: seq<Session>, m: Month, k: int)
    requires m in RetentionRates(customers, sessions) && k in RetentionRates(customers, sessions)[m]
    ensures m in CohortSizes(customers, sessions) && k in RetentionCounts(customers, sessions)[m]
    ensures 0.0 <= RetentionRates(customers, sessions)[m][k] <= 100.0
    ensures RetentionRates(customers, sessions)[m][k]
            == Rate(RetentionCounts(customers, sessions)[m][k], CohortSizes(customers, sessions)[m])
  {
    var counts := RetentionCounts(customers, sessions);
    var sizes := CohortSizes(customers, sessions);
    CellAtMostCohortSize(customers, sessions, m, k);
    RateBounds(counts[m][k], sizes[m]);
    assert RetentionRates(customers, sessions)[m][k] == Rate(counts[m][k], sizes[m]);
  }

  /** A count as a percentage of a positive size. */
  function Rate(count: nat, size: nat): real
    requires size >= 1
  {
    100.0 * count as real / size as real
  }

  lemma RateBounds(count: nat, size: nat)
    requires 1 <= size && count <= size
    ensures 0.0 <= Rate(count, size) <= 100.0
    ensures Rate(count, size) * size as real == 100.0 * count as real
  {
    var q := Rate(count, size);
    assert q * size as real == 100.0 * count as real;
    assert 100.0 * count as real <= 100.0 * size as real;
  }
}
