/** The loaded loan-snapshot sheet and the two columns derived from it when it is loaded:
    `year_disbursement` (the disbursement year as text) and `cohort_month` (the monthly
    period of the disbursement date). Reading the workbook and parsing dates are not part of
    this model: a record arrives with its dates already parsed, `None` standing for a date
    the parser could not read (`NaT`). */
module Dataset {
  import opened Wrappers
  import opened Periods
  import opened YearLabels

  /** One loan snapshot as loaded: one row per loan per observed month. `attributes` holds the
      categorical columns (adviser, analyst, score range, ...); a column missing from the map
      is an empty cell. */
  datatype Record = Record(
    disbursement: Option<Date>,
    observation: Option<Date>,
    debtAmount: real,
    aum: real,
    daysOverdue: int,
    attributes: map<string, string>)

  /** The loaded sheet: the names of its categorical columns and its records. */
  datatype Sheet = Sheet(columns: set<string>, records: seq<Record>)

  /** A snapshot with its derived cohort month (`None` when the disbursement date is missing). */
  datatype Row = Row(
    disbursement: Option<Date>,
    observation: Option<Date>,
    cohortMonth: Option<Period>,
    debtAmount: real,
    aum: real,
    daysOverdue: int,
    attributes: map<string, string>)

  /** The table the aggregation works on. */
  datatype Table = Table(columns: set<string>, rows: seq<Row>)

  const YearColumn := "year_disbursement"

  /** Whether some disbursement date of the sheet is missing, which makes pandas store the
      derived years as floats. */
  predicate HasMissingDisbursement(records: seq<Record>) {
    exists i :: 0 <= i < |records| && records[i].disbursement.None?
  }

  function CohortOf(disbursement: Option<Date>): Option<Period> {
    match disbursement
    case None => None
    case Some(d) => Some(ToPeriod(d))
  }

  /** A row whose cohort month is the period of its own disbursement date. */
  predicate CohortConsistent(r: Row) {
    r.cohortMonth == CohortOf(r.disbursement)
  }

  /** The row a record becomes once the two derived columns are added. */
  function Derive(rec: Record, floatColumn: bool): Row {
    Row(rec.disbursement, rec.observation, CohortOf(rec.disbursement),
        rec.debtAmount, rec.aum, rec.daysOverdue,
        rec.attributes[YearColumn := YearLabel(rec.disbursement, floatColumn)])
  }

  /** Adds `year_disbursement` and `cohort_month` to every record of the sheet. */
  function Normalize(sheet: Sheet): (t: Table)
    ensures t.columns == sheet.columns + {YearColumn}
    ensures |t.rows| == |sheet.records|
    ensures forall i :: 0 <= i < |t.rows| ==> CohortConsistent(t.rows[i])
    ensures forall i :: 0 <= i < |t.rows| ==>
              var rec, r := sheet.records[i], t.rows[i];
              && r.disbursement == rec.disbursement && r.observation == rec.observation
              && r.debtAmount == rec.debtAmount && r.aum == rec.aum && r.daysOverdue == rec.daysOverdue
              && r.attributes.Keys == rec.attributes.Keys + {YearColumn}
              && (forall c :: c in rec.attributes && c != YearColumn ==> r.attributes[c] == rec.attributes[c])
  {
    var floatColumn := HasMissingDisbursement(sheet.records);
    Table(sheet.columns + {YearColumn},
          seq(|sheet.records|, i requires 0 <= i < |sheet.records| => Derive(sheet.records[i], floatColumn)))
  }

  /** Two rows of one loaded sheet share a `year_disbursement` label exactly when both
      disbursement dates are missing or both fall in the same year; so selecting year labels
      selects disbursement years. */
  lemma NormalizeYearLabels(sheet: Sheet, i: int, j: int)
    requires 0 <= i < |sheet.records| && 0 <= j < |sheet.records|
    ensures var t := Normalize(sheet);
            var a, b := sheet.records[i].disbursement, sheet.records[j].disbursement;
            t.rows[i].attributes[YearColumn] == t.rows[j].attributes[YearColumn] <==>
              (a.None? && b.None?) || (a.Some? && b.Some? && a.value.year == b.value.year)
  {
    var floatColumn := HasMissingDisbursement(sheet.records);
    YearLabelInjective(sheet.records[i].disbursement, sheet.records[j].disbursement, floatColumn);
  }
}
