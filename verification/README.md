# Cohort delinquency (vintage) matrix

A Dafny model of the cohort delinquency analysis in `app.py`. The model covers
`generar_cohortes_morosidad` and the two columns derived when the sheet is loaded.

Each input row is one loan snapshot: one loan observed at the end of one month. The
function works in these steps:

1. It applies the column filters. A selection that is empty, or that contains `"Todos"`,
   imposes nothing.
2. It sums `debt_amount` per cohort month (the month of disbursement). This sum is the
   denominator.
3. It keeps the snapshots more than `dias_morosidad` days overdue.
4. It sums `aum` per (cohort month, months since disbursement). This sum is the numerator.
5. It left-merges the numerators with the denominators on the cohort month and divides.
6. It pivots the result into a cohort × age matrix.

It returns `None` when no row passes the filters, or when no passing row is overdue.

Modules, one per file:

- `Wrappers` (`wrappers.dfy`): `Option`.
- `Periods` (`periods.dfy`): dates and monthly periods (`to_period('M')`). Period ordinals
  count months from January 1970. The age is the difference of two ordinals (`.n`).
- `YearLabels` (`year_labels.dfy`): the text of the `year_disbursement` column. pandas
  stores the years as floats when some disbursement date is missing (`NaT`). In that case
  the labels read `"2024.0"`, and a missing year reads `"nan"`.
- `Dataset` (`dataset.dfy`): records, rows and tables. `Normalize` adds the two derived
  columns.
- `Filtering` (`filtering.dfy`): the filter loop, both as a reference definition
  (`Filtered`) and as the column-by-column loop (`ApplyFilters`).
- `Grouping` (`grouping.dfy`): group-by-sum as a fold, checked against a reference sum.
- `Cohorts` (`cohorts.dfy`): the aggregation, the float division and the outcome type. It
  also holds reference definitions of the numerator and the denominator, stated directly
  over the input rows.
- `CohortProperties` (`cohort_properties.dfy`): what the matrix means, as lemmas.
- `AsWritten` (`as_written.dfy`): the finding below and two worked scenarios.

The outcome is one of three values:

- `NoResult`: the source returns `None`.
- `Failure(fault)`: the source raises an exception.
- `Matrix(cells)`: a map from (cohort month, months since disbursement) to a quotient.

A quotient is `Finite(v)`, `Infinite(sign)` or `NotANumber`, because pandas divides by zero
without raising.

What the code does, and the model keeps:

- Rows with a negative age are kept.
- A zero ratio stays a zero; it is not turned into a null.
- The denominator adds `debt_amount` once per snapshot row. It does not de-duplicate loans.
- The denominator is per cohort, not per (cohort, age).
- The cohort is the loan's own disbursement month; there is no customer-level cohort.
- Any integer threshold is accepted.

## Model

| member | source | states |
|---|---|---|
| Periods.FromOrdinal | app.py:45-47 | every month ordinal names exactly one valid period: the result has a month in 1..12 and its ordinal is the given one |
| Periods.OrdinalRoundTrip | app.py:45-47 | converting a valid period to its ordinal and back gives the same period, so ordinals identify periods |
| Periods.MonthsBetweenCalendar | app.py:45-47 | the month difference equals 12 × (year difference) + (month difference) |
| Periods.ShiftByMonthsBetween | app.py:45-47 | moving the disbursement period forward by the computed age lands on the observation period |
| Periods.MonthsBetweenShift | app.py:45-47 | the age measured from a period to its shift by n months is n |
| Periods.AgeIgnoresDay | app.py:45-47 | the age does not depend on the day within either month |
| Periods.Age | app.py:45-47 | the age of a snapshot is 12 × (observation year − disbursement year) + (observation month − disbursement month), whatever the days |
| Periods.AgeSign | app.py:45-47 | an age is non-negative exactly when the observation month is not before the disbursement month |
| YearLabels.NatTextInjective | app.py:17 | distinct natural numbers have distinct decimal texts, in both directions |
| YearLabels.IntTextInjective | app.py:17 | distinct integers have distinct texts, in both directions |
| YearLabels.YearLabelInjective | app.py:17 | within one sheet, two year labels are equal exactly when both dates are missing or both fall in the same year |
| YearLabels.YearLabel | app.py:17 | a label reads "nan" exactly when the disbursement date is missing; a present year's label carries a decimal point exactly when the column is stored as floats |
| Dataset.Normalize | app.py:17-18 | loading keeps every record in order; each row's cohort month is the period of its own disbursement date; only the year column is added or overwritten; amounts, days and other attributes are unchanged |
| Dataset.NormalizeYearLabels | app.py:17 | two rows of a loaded table share a `year_disbursement` value exactly when their disbursement years agree, or both dates are missing |
| Filtering.ApplyFilters | app.py:28-31 | applying the filters one column at a time, in any order, gives the rows that pass every filter; it raises exactly when a constraining filter names a column the table lacks |
| Filtering.KeepMatching | app.py:31 | one `isin` step keeps exactly the rows whose value in that column is among the selected ones; a row lacking the column is dropped |
| Filtering.FilteredOnStep | app.py:29-31 | one more column adds one `isin` step when its selection constrains, and nothing otherwise |
| Filtering.FilteredMembership | app.py:28-31 | a row survives iff it is in the input and, for every filter column whose selection is non-empty and lacks "Todos", its value is selected; it survives as many times as it occurs in the input |
| Filtering.FilteredIsSubsequence | app.py:28-31 | filtering only removes rows and keeps the rest in order |
| Filtering.FilteredUnconstrained | app.py:28-30 | filters whose selections are all empty or contain "Todos" (including no filters) keep every row |
| Filtering.TightAdmits | app.py:30-31 | a row that passes tighter filters passes looser ones |
| Filtering.TightenedFilters | app.py:28-31 | tightening the selections never adds rows: the tighter result is the looser result filtered again, an ordered sub-sequence of it |
| Grouping.GroupSum | app.py:36 | group-by-sum has an entry for exactly the keys that occur, each holding the sum of that key's values |
| Cohorts.Divide | app.py:54 | a finite quotient times the denominator gives the numerator; a zero denominator gives a signed infinity for a non-zero numerator and NaN for zero |
| Cohorts.Overdue | app.py:38 | a snapshot survives the threshold cut iff it is in the input and its days overdue is strictly greater than the threshold |
| Cohorts.CohortMatrix | app.py:28-31 | the corrected computation raises only when a constraining filter names a column the table lacks, and then with `KeyError`, never because of a missing date; what its matrix holds is stated by `CohortProperties.CohortMatrixOutcome`, `CohortMatrixCells` and `CohortMatrixValues` |
| Cohorts.CohortMatrixAsWritten | app.py:45-47 | the code as written raises `AttributeError` only when some row of the input passes the filters, is overdue beyond the threshold and lacks a date; in every other case it returns what the corrected computation returns (the converse is `AsWritten.AsWrittenOutcome`) |
| CohortProperties.OverdueFilteredMembership | app.py:28-38 | a snapshot survives both cuts iff it is in the input, passes the filters and is strictly more than the threshold overdue |
| CohortProperties.CohortPairsOccur | app.py:36 | a cohort is grouped iff some row carries that cohort month; rows without one are dropped |
| CohortProperties.CellPairsOccur | app.py:49-51 | a (cohort, age) key is grouped iff some row has that cohort month and age |
| CohortProperties.DenominatorIsCohortDebt | app.py:36 | the denominator of cohort c is the debt of every filtered row of cohort c, overdue or not |
| CohortProperties.NumeratorIsOverdueExposure | app.py:38-51 | the numerator of (c, m) is the aum of the filtered rows in that cell with days overdue strictly greater than the threshold; a row exactly at the threshold adds nothing |
| CohortProperties.CohortMatrixOutcome | app.py:28-41 | "no result" iff no row passes the filters or no passing row is overdue beyond the threshold; a failure iff a constraining filter names an unknown column |
| CohortProperties.CohortMatrixCells | app.py:49-60 | the matrix has a cell (c, m) iff some filtered, delinquent row has cohort c and age m |
| CohortProperties.CohortMatrixValues | app.py:53-60 | every cell is numerator(c, m) divided by denominator(c), an ordinary quotient whenever the denominator is non-zero; the merge never misses a cohort |
| CohortProperties.ThresholdMonotone | app.py:38-60 | raising the threshold never adds cells and never turns "no result" into a result |
| CohortProperties.ExposureWithinDebt | app.py:36-51 | when every balance lies between zero and its debt, the numerator of a cell lies between zero and its cohort's denominator |
| CohortProperties.RatioBounded | app.py:36-54 | when every balance lies between zero and its debt, every cell is a ratio in [0, 1], or NaN for a cohort whose debt is zero |
| CohortProperties.NormalizedCell | app.py:18 | for a loaded row in cell (c, m), c is the disbursement month and the observation month lies m months after c |
| AsWritten.AsWrittenOutcome | app.py:45-47 | the code as written raises exactly when some filtered, delinquent row lacks a date; otherwise it agrees with the corrected computation |
| AsWritten.CorrectedSkipsUndatedRows | app.py:45-51 | the corrected computation never raises because of a missing date, and every cell it reports comes from a delinquent row with both dates present |
| AsWritten.UndatedOverdueRowRaises | app.py:45-47 | on two overdue January loans, one without an observation date, the code raises; the corrected computation reports 90 / 200 = 0.45 at age 2 |
| AsWritten.OnlyOneCell | app.py:49-60 | when exactly one snapshot is delinquent, the matrix has exactly that snapshot's cell |
| AsWritten.ThreeLoansAtThirtyDays | app.py:22-62 | three January loans with 100 each, one 45 days overdue with balance 90 in March: at 30 days the only cell is (January, 2) = 0.3 |
| AsWritten.ThreeLoansAtSixtyDays | app.py:38-41 | the same loans at 60 days give no result |

## Left out

- Loading (`cargar_datos`, app.py:6-16) is not modelled: reading the workbook, the
  Streamlit cache and `pd.to_datetime(..., errors='coerce')` are outside the model. A record
  arrives with its dates parsed; `None` stands for a date that could not be parsed (`NaT`).
- `generar_heatmap` (app.py:64-75) is not modelled. It draws the chart.
- `main` (app.py:77-103) is not modelled. It only builds the widgets: the fixed list of
  filterable columns, the `"Todos"` default, and the slider over 30, 60, 90 and 120,
  whose default is 30. The core accepts any integer threshold.
- `filtros=None` is modelled by the empty filter map. Both skip the filter loop.
- Floating-point arithmetic is modelled with exact `real` numbers: there is no rounding and
  no signed zero. Missing numeric cells (a `NaN` amount or day count) are not modelled.
  Amounts are reals and days overdue an integer.
- Layout of the pivoted DataFrame is not modelled: row and column order, and the NaN
  fill of absent cells. The matrix is a map keyed by (cohort month, age).
- The `KeyError` of an unknown filter column does not carry the column's name. Which name
  pandas reports depends on the map's iteration order.
- `CohortMatrix` returns an empty matrix, not "no result", when every delinquent row lacks
  a cell. For loaded rows this only happens when their dates are missing. The code as
  written raises `AttributeError` on such rows instead (see Findings); only the corrected
  computation reaches the pivot and returns the empty matrix.
- Filters are modelled on the categorical attribute columns only, the ones `main` offers
  (app.py:81-83), `year_disbursement` among them. A filter naming a numeric or date
  column of the sheet (`days_overdue`, `aum`, `debt_amount`, `cohort_month`, the dates) is
  treated as a column the table lacks, so it yields `Failure(UnknownColumn)`. pandas would
  instead apply `isin` to that column's values.
- Dates are not checked for validity: day ranges and pandas' 1677-2262 timestamp range
  are not enforced. Ages and cohorts are defined for any year and month.
- Customer-level cohorts, dropping negative ages, turning zero ratios into nulls, and loan
  de-duplication are not modelled, because the code does none of them.

## Findings

| source | as written | input that shows it | evidently intended | confidence | as-written member | corrected member |
|---|---|---|---|---|---|---|
| app.py:45-47 | The month difference is read with `.apply(lambda x: x.n)`. For a snapshot whose disbursement or observation date is missing, the difference is `NaT`. `NaT` has no `n`, so the call raises `AttributeError`. The sheet is loaded without dropping nulls (app.py:9, 15-16), so such rows reach this step. | Two January 2024 loans, both overdue beyond 30 days in March. The second has an unparseable observation date. | Rows without a defined age are left out of the grouping, the way `groupby` already leaves out a missing cohort month. The matrix then shows the dated row: 90 / 200 = 0.45 at age 2. | medium, not executed | AsWritten.UndatedOverdueRowRaises | AsWritten.CorrectedSkipsUndatedRows |

`Cohorts.CohortMatrixAsWritten` is the code as written. `Cohorts.CohortMatrix` is the
corrected computation, and every property in `CohortProperties` is stated about it.
`AsWritten.AsWrittenOutcome` shows that the two differ only on inputs that have such a row.
