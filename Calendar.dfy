/** Calendar instants and the calendar months they fall in.
    A `Month` stands for the first instant of a calendar month, which is what
    truncating a timestamp to a monthly period and back to a timestamp yields. */
module Calendar {

  type MonthOfYear = m: int | 1 <= m <= 12 witness 1
  type DayOfMonth = d: int | 1 <= d <= 31 witness 1
  type SecondOfDay = s: int | 0 <= s < 86400 witness 0

  /** An instant, to the second.  Sub-second parts and time zones are not modelled. */
  datatype Timestamp = Timestamp(year: int, month: MonthOfYear, day: DayOfMonth, second: SecondOfDay)

  /** A calendar month, identified by its year and month of the year. */
  datatype Month = Month(year: int, month: MonthOfYear)

  /** Truncation of an instant to the month it falls in. */
  function MonthOf(t: Timestamp): Month {
    Month(t.year, t.month)
  }

  /** The first instant of a month: midnight on its first day. */
  function Start(m: Month): Timestamp {
    Timestamp(m.year, m.month, 1, 0)
  }

  /** Chronological order of instants. */
  predicate NotAfter(a: Timestamp, b: Timestamp) {
    a.year < b.year
    || (a.year == b.year && a.month < b.month)
    || (a.year == b.year && a.month == b.month && a.day < b.day)
    || (a.year == b.year && a.month == b.month && a.day == b.day && a.second <= b.second)
  }

  /** Chronological (strict) order of months. */
  predicate Before(a: Month, b: Month) {
    a.year < b.year || (a.year == b.year && a.month < b.month)
  }

  /** The number of months since month 1 of year 0; a bijection between months and integers. */
  function Index(m: Month): int {
    m.year * 12 + (m.month - 1)
  }

  /** The month offset of `activity` relative to `cohort`, computed from the
      year and month fields separately. */
  function MonthNumber(cohort: Month, activity: Month): int {
    (activity.year - cohort.year) * 12 + (activity.month - cohort.month)
  }

  /** Two instants fall in the same month exactly when they agree on year and month:
      the day and the time of day do not matter. */
  lemma SameMonthIff(s: Timestamp, t: Timestamp)
    ensures MonthOf(s) == MonthOf(t) <==> s.year == t.year && s.month == t.month
  {
  }

  /** Truncation is a retraction: the start of a month truncates to that month,
      truncating twice is truncating once, and truncation never moves an instant later. */
  lemma TruncationRoundTrip(m: Month, t: Timestamp)
    ensures MonthOf(Start(m)) == m
    ensures MonthOf(Start(MonthOf(t))) == MonthOf(t)
    ensures NotAfter(Start(MonthOf(t)), t)
  {
  }

  /** `Index` is order-preserving and injective, so months are ordered like integers. */
  lemma IndexOrder(a: Month, b: Month)
    ensures Before(a, b) <==> Index(a) < Index(b)
    ensures a == b <==> Index(a) == Index(b)
  {
  }

  /** The month offset is the difference of indices; so it is 0 exactly for the same
      month, adds up along a chain of months, and is negative exactly for earlier months. */
  lemma MonthNumberIsIndexDifference(c: Month, a: Month, b: Month)
    ensures MonthNumber(c, a) == Index(a) - Index(c)
    ensures MonthNumber(c, a) == 0 <==> c == a
    ensures MonthNumber(c, a) < 0 <==> Before(a, c)
    ensures MonthNumber(c, a) + MonthNumber(a, b) == MonthNumber(c, b)
  {
    IndexOrder(c, a);
  }
}
