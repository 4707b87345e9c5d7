/** The computation as the source writes it raises on an overdue snapshot with a missing
    date, because the month difference of such a row is `NaT` and `NaT` has no month count.
    `CohortMatrix` leaves such rows out of the grouping instead, the way the cohort grouping
    already leaves out rows whose cohort month is missing. Also two worked scenarios. */
module AsWritten {
  import opened Wrappers
  import opened Periods
  import opened Dataset
  import opened Filtering
  import opened Cohorts
  import opened CohortProperties

  /** The source raises exactly when some delinquent row lacks a date; otherwise it returns
      what `CohortMatrix` returns. */
  lemma AsWrittenOutcome(table: Table, filters: Filters, threshold: int)
    ensures CohortMatrixAsWritten(table, filters, threshold) == Failure(UndefinedAge) <==>
              KnownColumns(filters, table.columns)
              && exists r :: r in table.rows && Delinquent(filters, threshold, r) && !Dated(r)
    ensures CohortMatrixAsWritten(table, filters, threshold) != Failure(UndefinedAge) ==>
              CohortMatrixAsWritten(table, filters, threshold) == CohortMatrix(table, filters, threshold)
  {
    var overdue := Overdue(Filtered(table.rows, filters), threshold);
    forall r | r in table.rows && Delinquent(filters, threshold, r) && !Dated(r)
      ensures r in overdue
    {
      OverdueFilteredMembership(table.rows, filters, threshold, r);
    }
    forall r | r in overdue
      ensures r in table.rows && Delinquent(filters, threshold, r)
    {
      OverdueFilteredMembership(table.rows, filters, threshold, r);
    }
    if |Filtered(table.rows, filters)| == 0 {
      assert overdue == [];
    }
  }

  /** The corrected computation never raises on a missing date: every cell it reports comes
      from a delinquent row whose two dates are present. */
  lemma CorrectedSkipsUndatedRows(table: Table, filters: Filters, threshold: int)
    ensures CohortMatrix(table, filters, threshold) != Failure(UndefinedAge)
    ensures var o := CohortMatrix(table, filters, threshold);
            o.Matrix? ==> forall k :: k in o.cells ==>
              exists r :: r in table.rows && Delinquent(filters, threshold, r) && Dated(r) && CellOf(r) == Some(k)
  {
    var o := CohortMatrix(table, filters, threshold);
    if o.Matrix? {
      forall k | k in o.cells
        ensures exists r :: r in table.rows && Delinquent(filters, threshold, r) && Dated(r) && CellOf(r) == Some(k)
      {
        CohortMatrixCells(table, filters, threshold, k);
      }
    }
  }

  const January2024 := Period(2024, 1)

  function Snapshot(observation: Option<Date>, aum: real, daysOverdue: int): Row {
    Row(Some(Date(2024, 1, 15)), observation, Some(January2024), 100.0, aum, daysOverdue, map[])
  }

  /** Two loans of January 2024, both overdue in March 2024; the second snapshot's
      observation date could not be parsed. */
  const UndatedExample := Table({}, [Snapshot(Some(Date(2024, 3, 31)), 90.0, 45), Snapshot(None, 50.0, 60)])

  lemma {:induction false} UndatedExampleSums()
    ensures OverdueExposure(UndatedExample.rows, map[], 30, (January2024, 2)) == 90.0
    ensures CohortDebt(UndatedExample.rows, map[], January2024) == 200.0
  {
    var rows := UndatedExample.rows;
    assert rows[..1] == [rows[0]];
    assert [rows[0]][..0] == [];
    assert Admits(map[], rows[0]) && Admits(map[], rows[1]);
    assert CellOf(rows[0]) == Some((January2024, 2));
  }

  /** On the example the source raises, while the corrected computation reports the dated
      snapshot: 90 overdue out of 200 disbursed. */
  lemma UndatedOverdueRowRaises()
    ensures CohortMatrixAsWritten(UndatedExample, map[], 30) == Failure(UndefinedAge)
    ensures var o := CohortMatrix(UndatedExample, map[], 30);
            o.Matrix? && (January2024, 2) in o.cells && o.cells[(January2024, 2)] == Finite(0.45)
  {
    var rows := UndatedExample.rows;
    assert rows[1] in rows && Delinquent(map[], 30, rows[1]) && !Dated(rows[1]);
    assert KnownColumns(map[], UndatedExample.columns);
    AsWrittenOutcome(UndatedExample, map[], 30);
    CohortMatrixOutcome(UndatedExample, map[], 30);
    assert rows[0] in rows && Delinquent(map[], 30, rows[0]);
    CohortMatrixCells(UndatedExample, map[], 30, (January2024, 2));
    CohortMatrixValues(UndatedExample, map[], 30, (January2024, 2));
    UndatedExampleSums();
  }

  /** Three loans of January 2024 with 100 disbursed each, observed in March 2024; one is
      45 days overdue with a balance of 90. */
  const ThreeLoans := Table({}, [
    Snapshot(Some(Date(2024, 3, 31)), 90.0, 45),
    Snapshot(Some(Date(2024, 3, 31)), 80.0, 0),
    Snapshot(Some(Date(2024, 3, 31)), 70.0, 10)])

  lemma {:induction false} ThreeLoansSums()
    ensures OverdueExposure(ThreeLoans.rows, map[], 30, (January2024, 2)) == 90.0
    ensures CohortDebt(ThreeLoans.rows, map[], January2024) == 300.0
  {
    var rows := ThreeLoans.rows;
    var k := (January2024, 2);
    assert rows[..2] == [rows[0], rows[1]];
    assert [rows[0], rows[1]][..1] == [rows[0]];
    assert [rows[0]][..0] == [];
    assert Admits(map[], rows[0]) && Admits(map[], rows[1]) && Admits(map[], rows[2]);
    assert CellOf(rows[0]) == Some(k);
    assert CohortDebt([rows[0]], map[], January2024) == 100.0;
    assert CohortDebt([rows[0], rows[1]], map[], January2024) == 200.0;
    assert OverdueExposure([rows[0]], map[], 30, k) == 90.0;
    assert OverdueExposure([rows[0], rows[1]], map[], 30, k) == 90.0;
  }

  /** With a 30-day threshold the January cohort shows 90 / 300 at two months on book; the
      denominator counts the two loans that are not overdue. */
  lemma ThreeLoansAtThirtyDays()
    ensures var o := CohortMatrix(ThreeLoans, map[], 30);
            o.Matrix? && o.cells.Keys == {(January2024, 2)} && o.cells[(January2024, 2)] == Finite(0.3)
  {
    ThreeLoansShape(ThreeLoans.rows);
    OnlyOneCell(ThreeLoans, map[], 30, ThreeLoans.rows[0]);
    CohortMatrixValues(ThreeLoans, map[], 30, (January2024, 2));
    ThreeLoansSums();
  }

  lemma ThreeLoansShape(rows: seq<Row>)
    requires rows == ThreeLoans.rows
    ensures rows[0] in rows && Delinquent(map[], 30, rows[0]) && CellOf(rows[0]) == Some((January2024, 2))
    ensures forall r :: r in rows && Delinquent(map[], 30, r) ==> r == rows[0]
  {
  }

  /** When a single snapshot is delinquent, the matrix has exactly its cell. */
  lemma OnlyOneCell(table: Table, filters: Filters, threshold: int, r0: Row)
    requires KnownColumns(filters, table.columns)
    requires r0 in table.rows && Delinquent(filters, threshold, r0) && CellOf(r0).Some?
    requires forall r :: r in table.rows && Delinquent(filters, threshold, r) ==> r == r0
    ensures var o := CohortMatrix(table, filters, threshold);
            o.Matrix? && o.cells.Keys == {CellOf(r0).value}
  {
    CohortMatrixOutcome(table, filters, threshold);
    var o := CohortMatrix(table, filters, threshold);
    forall k ensures k in o.cells <==> k == CellOf(r0).value {
      CohortMatrixCells(table, filters, threshold, k);
    }
  }

  /** With a 60-day threshold no loan qualifies and there is no result. */
  lemma ThreeLoansAtSixtyDays()
    ensures CohortMatrix(ThreeLoans, map[], 60) == NoResult
  {
    var rows := ThreeLoans.rows;
    CohortMatrixOutcome(ThreeLoans, map[], 60);
    assert forall r :: r in rows ==> r.daysOverdue <= 60;
  }
}
