/** Calendar dates and the monthly periods that `to_period('M')` derives from them.
    The cohort of a loan is the period of its disbursement date, and its age at a
    snapshot is the number of whole periods between the two dates. */
module Periods {

  /** A calendar date as parsed from the spreadsheet; the time of day is irrelevant here. */
  datatype Date = Date(year: int, month: int, day: int)

  /** A monthly period (`Period[M]`): a year and a month of that year. */
  datatype Period = Period(year: int, month: int)

  predicate ValidPeriod(p: Period) {
    1 <= p.month <= 12
  }

  /** The monthly period containing a date: the day is dropped. */
  function ToPeriod(d: Date): Period {
    Period(d.year, d.month)
  }

  /** Period ordinals count months from January 1970, as pandas does for `Period[M]`. */
  const EpochYear := 1970

  function Ordinal(p: Period): int {
    (p.year - EpochYear) * 12 + (p.month - 1)
  }

  /** The period with a given ordinal; the inverse of `Ordinal`. */
  function FromOrdinal(k: int): (p: Period)
    ensures ValidPeriod(p)
    ensures Ordinal(p) == k
  {
    Period(EpochYear + k / 12, k % 12 + 1)
  }

  /** `later - earlier` on monthly periods, read through `.n`: a signed count of months. */
  function MonthsBetween(later: Period, earlier: Period): int {
    Ordinal(later) - Ordinal(earlier)
  }

  /** The period `n` months after `p` (before it when `n` is negative). */
  function Shift(p: Period, n: int): (q: Period)
    ensures ValidPeriod(q)
  {
    FromOrdinal(Ordinal(p) + n)
  }

  /** The months-since-disbursement of a snapshot: whole calendar months between the two periods. */
  function Age(observation: Date, disbursement: Date): (a: int)
    ensures a == 12 * (observation.year - disbursement.year) + (observation.month - disbursement.month)
  {
    MonthsBetween(ToPeriod(observation), ToPeriod(disbursement))
  }

  /** Ordinals identify valid periods: converting there and back is the identity. */
  lemma OrdinalRoundTrip(p: Period)
    requires ValidPeriod(p)
    ensures FromOrdinal(Ordinal(p)) == p
  {
  }

  /** The month difference is the calendar difference 12·Δyear + Δmonth. */
  lemma MonthsBetweenCalendar(later: Period, earlier: Period)
    ensures MonthsBetween(later, earlier) == 12 * (later.year - earlier.year) + (later.month - earlier.month)
  {
  }

  /** Shifting the earlier period by the month difference lands on the later one. */
  lemma ShiftByMonthsBetween(later: Period, earlier: Period)
    requires ValidPeriod(later)
    ensures Shift(earlier, MonthsBetween(later, earlier)) == later
  {
  }

  /** Measuring a shift gives back its length. */
  lemma MonthsBetweenShift(p: Period, n: int)
    ensures MonthsBetween(Shift(p, n), p) == n
  {
  }

  /** The age only depends on the year and month of each date, never on the day. */
  lemma AgeIgnoresDay(o1: Date, d1: Date, o2: Date, d2: Date)
    requires o1.year == o2.year && o1.month == o2.month
    requires d1.year == d2.year && d1.month == d2.month
    ensures Age(o1, d1) == Age(o2, d2)
  {
  }

  /** An age is non-negative exactly when the snapshot month is not before the disbursement month. */
  lemma AgeSign(observation: Date, disbursement: Date)
    requires 1 <= observation.month <= 12 && 1 <= disbursement.month <= 12
    ensures Age(observation, disbursement) >= 0 <==>
              observation.year > disbursement.year
              || (observation.year == disbursement.year && observation.month >= disbursement.month)
  {
  }
}
