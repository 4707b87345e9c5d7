/** The cohort (vintage) delinquency matrix: filter the snapshots, total the disbursed debt
    per cohort month, keep the snapshots more than `threshold` days overdue, total their
    outstanding balance per (cohort month, months since disbursement), and divide each total
    by its cohort's disbursed debt. */
module Cohorts {
  import opened Wrappers
  import opened Periods
  import opened Dataset
  import opened Filtering
  import opened Grouping

  /** A matrix cell: the cohort month (row) and the months since disbursement (column). */
  type Cell = (Period, int)

  /** A float quotient: pandas divides by zero without raising. */
  datatype Quotient = Finite(value: real) | Infinite(positive: bool) | NotANumber

  /** Why the computation raised instead of returning. */
  datatype Fault =
    | UnknownColumn  // a constraining filter names a column the table lacks (`KeyError`)
    | UndefinedAge   // a missing date turned a month difference into `NaT` (`AttributeError`)

  /** `None` (nothing to show), a raised exception, or the cohort × age matrix. */
  datatype Outcome = NoResult | Failure(fault: Fault) | Matrix(cells: map<Cell, Quotient>)

  /** The snapshots more than `threshold` days overdue; a snapshot exactly at the threshold
      is not overdue. */
  function Overdue(rows: seq<Row>, threshold: int): (o: seq<Row>)
    ensures forall r :: r in o <==> r in rows && r.daysOverdue > threshold
  {
    if |rows| == 0 then []
    else
      var pre, r := Overdue(rows[..|rows| - 1], threshold), rows[|rows| - 1];
      if r.daysOverdue > threshold then pre + [r] else pre
  }

  predicate Dated(r: Row) {
    r.disbursement.Some? && r.observation.Some?
  }

  /** Months since disbursement, missing when either date is. */
  function MonthsOnBook(r: Row): Option<int> {
    if Dated(r) then Some(Age(r.observation.value, r.disbursement.value)) else None
  }

  /** The cell a snapshot is counted in, missing when its cohort or its age is. */
  function CellOf(r: Row): Option<Cell> {
    match (r.cohortMonth, MonthsOnBook(r))
    case (Some(c), Some(m)) => Some((c, m))
    case _ => None
  }

  /** (cohort month, disbursed debt) of every row with a cohort month. */
  function CohortPairs(rows: seq<Row>): seq<(Period, real)> {
    if |rows| == 0 then []
    else
      var pre, r := CohortPairs(rows[..|rows| - 1]), rows[|rows| - 1];
      if r.cohortMonth.Some? then pre + [(r.cohortMonth.value, r.debtAmount)] else pre
  }

  /** (cell, outstanding balance) of every row with a cell. */
  function CellPairs(rows: seq<Row>): seq<(Cell, real)> {
    if |rows| == 0 then []
    else
      var pre, r := CellPairs(rows[..|rows| - 1]), rows[|rows| - 1];
      if CellOf(r).Some? then pre + [(CellOf(r).value, r.aum)] else pre
  }

  /** Float division as pandas performs it. */
  function Divide(n: real, d: real): (q: Quotient)
    ensures q.Finite? <==> d != 0.0
    ensures q.Finite? ==> q.value * d == n
    ensures q.Infinite? ==> d == 0.0 && (q.positive <==> n > 0.0)
    ensures q.NotANumber? <==> d == 0.0 && n == 0.0
  {
    if d != 0.0 then Finite(n / d)
    else if n > 0.0 then Infinite(true)
    else if n < 0.0 then Infinite(false)
    else NotANumber
  }

  /** Left merge of the numerators with the denominators on the cohort month, then division;
      a numerator without a denominator would divide by a missing value. The resulting map is
      the pivoted matrix. */
  function Ratios(numerators: map<Cell, real>, denominators: map<Period, real>): (m: map<Cell, Quotient>)
    ensures m.Keys == numerators.Keys
    ensures forall k :: k in m && k.0 in denominators ==> m[k] == Divide(numerators[k], denominators[k.0])
  {
    map k | k in numerators :: if k.0 in denominators then Divide(numerators[k], denominators[k.0]) else NotANumber
  }

  /** The cohort delinquency matrix with snapshots whose age is undefined left out of the
      grouping, as pandas leaves out missing group keys. The caller's default threshold is
      30 days. It raises only on a filter column the table lacks, never on a missing date. */
  function CohortMatrix(table: Table, filters: Filters, threshold: int): (o: Outcome)
    ensures o.Failure? <==> !KnownColumns(filters, table.columns)
    ensures o.Failure? ==> o.fault == UnknownColumn
  {
    if !KnownColumns(filters, table.columns) then Failure(UnknownColumn)
    else
      var filtered := Filtered(table.rows, filters);
      if |filtered| == 0 then NoResult
      else
        var debtByCohort := GroupSum(CohortPairs(filtered));
        var overdue := Overdue(filtered, threshold);
        if |overdue| == 0 then NoResult
        else Matrix(Ratios(GroupSum(CellPairs(overdue)), debtByCohort))
  }

  /** The same computation as the source writes it: the month difference of an overdue
      snapshot with a missing date is `NaT`, and reading its month count raises. */
  function CohortMatrixAsWritten(table: Table, filters: Filters, threshold: int): (o: Outcome)
    ensures o != Failure(UndefinedAge) ==> o == CohortMatrix(table, filters, threshold)
    ensures o == Failure(UndefinedAge) ==>
              exists r :: r in table.rows && Delinquent(filters, threshold, r) && !Dated(r)
  {
    if !KnownColumns(filters, table.columns) then Failure(UnknownColumn)
    else
      var filtered := Filtered(table.rows, filters);
      if |filtered| == 0 then NoResult
      else
        var debtByCohort := GroupSum(CohortPairs(filtered));
        var overdue := Overdue(filtered, threshold);
        if |overdue| == 0 then NoResult
        else if exists r :: r in overdue && !Dated(r) then
          assert forall r :: r in overdue ==> r in table.rows && Delinquent(filters, threshold, r) by {
            forall r | r in overdue
              ensures r in table.rows && Delinquent(filters, threshold, r)
            {
              FilteredMembership(table.rows, filters, r);
            }
          }
          Failure(UndefinedAge)
        else Matrix(Ratios(GroupSum(CellPairs(overdue)), debtByCohort))
  }

  // Reference definitions, stated directly over the input rows.

  /** Whether a row passes the filters and is overdue beyond the threshold. */
  predicate Delinquent(filters: Filters, threshold: int, r: Row) {
    Admits(filters, r) && r.daysOverdue > threshold
  }

  /** The disbursed debt of the rows of cohort `c` that pass the filters, overdue or not. */
  function CohortDebt(rows: seq<Row>, filters: Filters, c: Period): real {
    if |rows| == 0 then 0.0
    else
      var r := rows[|rows| - 1];
      CohortDebt(rows[..|rows| - 1], filters, c)
        + (if Admits(filters, r) && r.cohortMonth == Some(c) then r.debtAmount else 0.0)
  }

  /** The outstanding balance of the delinquent rows counted in cell `k`. */
  function OverdueExposure(rows: seq<Row>, filters: Filters, threshold: int, k: Cell): real {
    if |rows| == 0 then 0.0
    else
      var r := rows[|rows| - 1];
      OverdueExposure(rows[..|rows| - 1], filters, threshold, k)
        + (if Delinquent(filters, threshold, r) && CellOf(r) == Some(k) then r.aum else 0.0)
  }
}
