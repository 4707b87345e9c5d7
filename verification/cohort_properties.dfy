/** What the cohort matrix means, stated over the input rows: when there is no result, which
    cells exist, what each cell holds, how the threshold and the filters move it, and where
    the computation as written departs from the one intended. */
module CohortProperties {
  import opened Wrappers
  import opened Periods
  import opened Dataset
  import opened Filtering
  import opened Grouping
  import opened Cohorts

  lemma Snoc<T>(a: seq<T>, x: T)
    ensures (a + [x])[..|a|] == a
  {
  }

  /** A row survives both cuts exactly when it is delinquent. */
  lemma OverdueFilteredMembership(rows: seq<Row>, filters: Filters, threshold: int, r: Row)
    ensures r in Overdue(Filtered(rows, filters), threshold) <==> r in rows && Delinquent(filters, threshold, r)
  {
    FilteredMembership(rows, filters, r);
  }

  lemma OverdueSnoc(rows: seq<Row>, threshold: int, r: Row)
    ensures Overdue(rows + [r], threshold) == (if r.daysOverdue > threshold then Overdue(rows, threshold) + [r] else Overdue(rows, threshold))
  {
    Snoc(rows, r);
  }

  lemma CohortPairsSnoc(rows: seq<Row>, r: Row)
    ensures CohortPairs(rows + [r]) ==
              (if r.cohortMonth.Some? then CohortPairs(rows) + [(r.cohortMonth.value, r.debtAmount)] else CohortPairs(rows))
  {
    Snoc(rows, r);
  }

  lemma CellPairsSnoc(rows: seq<Row>, r: Row)
    ensures CellPairs(rows + [r]) == (if CellOf(r).Some? then CellPairs(rows) + [(CellOf(r).value, r.aum)] else CellPairs(rows))
  {
    Snoc(rows, r);
  }

  lemma FilteredSnoc(rows: seq<Row>, filters: Filters, r: Row)
    ensures Filtered(rows + [r], filters) == (if Admits(filters, r) then Filtered(rows, filters) + [r] else Filtered(rows, filters))
  {
    Snoc(rows, r);
    var f := Filtered(rows, filters);
    assert Filtered(rows + [r], filters) == f + (if Admits(filters, r) then [r] else []);
    if !Admits(filters, r) {
      assert f + [] == f;
    }
  }

  /** A key occurs after appending a pair exactly when it occurred before or is the new key. */
  lemma OccursSnoc<K(!new)>(pairs: seq<(K, real)>, p: (K, real), k: K)
    ensures Occurs(pairs + [p], k) <==> Occurs(pairs, k) || p.0 == k
  {
    var ps := pairs + [p];
    if p.0 == k {
      assert ps[|pairs|].0 == k;
    }
    if Occurs(pairs, k) {
      var i :| 0 <= i < |pairs| && pairs[i].0 == k;
      assert ps[i].0 == k;
    }
    if Occurs(ps, k) {
      var i :| 0 <= i < |ps| && ps[i].0 == k;
      if i < |pairs| {
        assert pairs[i].0 == k;
      }
    }
  }

  lemma {:induction false} CohortPairsOccur(rows: seq<Row>, c: Period)
    ensures Occurs(CohortPairs(rows), c) <==> exists r :: r in rows && r.cohortMonth == Some(c)
  {
    if |rows| > 0 {
      var pre, last := rows[..|rows| - 1], rows[|rows| - 1];
      assert rows == pre + [last];
      CohortPairsOccur(pre, c);
      CohortPairsSnoc(pre, last);
      if last.cohortMonth.Some? {
        OccursSnoc(CohortPairs(pre), (last.cohortMonth.value, last.debtAmount), c);
      }
      if exists r :: r in rows && r.cohortMonth == Some(c) {
        var r :| r in rows && r.cohortMonth == Some(c);
        if r != last {
          assert r in pre;
        }
      }
    }
  }

  lemma {:induction false} CellPairsOccur(rows: seq<Row>, k: Cell)
    ensures Occurs(CellPairs(rows), k) <==> exists r :: r in rows && CellOf(r) == Some(k)
  {
    if |rows| > 0 {
      var pre, last := rows[..|rows| - 1], rows[|rows| - 1];
      assert rows == pre + [last];
      CellPairsOccur(pre, k);
      CellPairsSnoc(pre, last);
      if CellOf(last).Some? {
        OccursSnoc(CellPairs(pre), (CellOf(last).value, last.aum), k);
      }
      if exists r :: r in rows && CellOf(r) == Some(k) {
        var r :| r in rows && CellOf(r) == Some(k);
        if r != last {
          assert r in pre;
        }
      }
    }
  }

  lemma SumForSnoc<K(!new)>(pairs: seq<(K, real)>, p: (K, real), k: K)
    ensures SumFor(pairs + [p], k) == SumFor(pairs, k) + (if p.0 == k then p.1 else 0.0)
  {
    Snoc(pairs, p);
  }

  /** The denominator of cohort `c` totals the debt of every filtered row of that cohort,
      overdue or not: it is taken before the threshold cut. */
  lemma {:induction false} DenominatorIsCohortDebt(rows: seq<Row>, filters: Filters, c: Period)
    ensures SumFor(CohortPairs(Filtered(rows, filters)), c) == CohortDebt(rows, filters, c)
  {
    if |rows| > 0 {
      var pre, r := rows[..|rows| - 1], rows[|rows| - 1];
      assert rows == pre + [r];
      DenominatorIsCohortDebt(pre, filters, c);
      var f := Filtered(pre, filters);
      FilteredSnoc(pre, filters, r);
      if Admits(filters, r) {
        CohortPairsSnoc(f, r);
        if r.cohortMonth.Some? {
          SumForSnoc(CohortPairs(f), (r.cohortMonth.value, r.debtAmount), c);
        }
      }
    }
  }

  /** The numerator of cell `k` totals the outstanding balance of the filtered rows counted in
      that cell that are strictly more than `threshold` days overdue. */
  lemma {:induction false} NumeratorIsOverdueExposure(rows: seq<Row>, filters: Filters, threshold: int, k: Cell)
    ensures SumFor(CellPairs(Overdue(Filtered(rows, filters), threshold)), k) == OverdueExposure(rows, filters, threshold, k)
  {
    if |rows| > 0 {
      var pre, r := rows[..|rows| - 1], rows[|rows| - 1];
      assert rows == pre + [r];
      NumeratorIsOverdueExposure(pre, filters, threshold, k);
      var f := Filtered(pre, filters);
      FilteredSnoc(pre, filters, r);
      if Admits(filters, r) {
        var o := Overdue(f, threshold);
        OverdueSnoc(f, threshold, r);
        if r.daysOverdue > threshold {
          CellPairsSnoc(o, r);
          if CellOf(r).Some? {
            SumForSnoc(CellPairs(o), (CellOf(r).value, r.aum), k);
          }
        }
      }
    }
  }

  /** "No result" exactly when no row passes the filters or no passing row is overdue beyond
      the threshold; a failure exactly when a constraining filter names an unknown column. */
  lemma CohortMatrixOutcome(table: Table, filters: Filters, threshold: int)
    ensures var o := CohortMatrix(table, filters, threshold);
            && (o.Failure? <==> !KnownColumns(filters, table.columns))
            && (o.Failure? ==> o.fault == UnknownColumn)
            && (o.NoResult? <==>
                  KnownColumns(filters, table.columns)
                  && ((forall r :: r in table.rows ==> !Admits(filters, r))
                      || (forall r :: r in table.rows && Admits(filters, r) ==> r.daysOverdue <= threshold)))
  {
    var rows := table.rows;
    var filtered := Filtered(rows, filters);
    var overdue := Overdue(filtered, threshold);
    if |filtered| > 0 {
      FilteredMembership(rows, filters, filtered[0]);
    } else {
      forall r | r in rows ensures !Admits(filters, r) {
        FilteredMembership(rows, filters, r);
      }
    }
    if |overdue| > 0 {
      OverdueFilteredMembership(rows, filters, threshold, overdue[0]);
      FilteredMembership(rows, filters, overdue[0]);
    } else {
      forall r | r in rows && Admits(filters, r) ensures r.daysOverdue <= threshold {
        OverdueFilteredMembership(rows, filters, threshold, r);
      }
    }
  }

  /** The matrix has a cell exactly for the (cohort month, age) pairs of delinquent rows. */
  lemma CohortMatrixCells(table: Table, filters: Filters, threshold: int, k: Cell)
    ensures var o := CohortMatrix(table, filters, threshold);
            o.Matrix? ==>
              (k in o.cells <==> exists r :: r in table.rows && Delinquent(filters, threshold, r) && CellOf(r) == Some(k))
  {
    var overdue := Overdue(Filtered(table.rows, filters), threshold);
    CellPairsOccur(overdue, k);
    forall r | r in table.rows && Delinquent(filters, threshold, r) && CellOf(r) == Some(k)
      ensures r in overdue
    {
      OverdueFilteredMembership(table.rows, filters, threshold, r);
    }
    forall r | r in overdue && CellOf(r) == Some(k)
      ensures r in table.rows && Delinquent(filters, threshold, r)
    {
      OverdueFilteredMembership(table.rows, filters, threshold, r);
    }
  }

  /** Every cell is the delinquent balance of its cell divided by the debt of its whole
      cohort; with a non-zero denominator that is an ordinary quotient. */
  lemma CohortMatrixValues(table: Table, filters: Filters, threshold: int, k: Cell)
    ensures var o := CohortMatrix(table, filters, threshold);
            var n, d := OverdueExposure(table.rows, filters, threshold, k), CohortDebt(table.rows, filters, k.0);
            o.Matrix? && k in o.cells ==>
              && o.cells[k] == Divide(n, d)
              && (d != 0.0 ==> o.cells[k] == Finite(n / d))
  {
    var o := CohortMatrix(table, filters, threshold);
    if o.Matrix? && k in o.cells {
      var rows := table.rows;
      var filtered := Filtered(rows, filters);
      var overdue := Overdue(filtered, threshold);
      CellPairsOccur(overdue, k);
      var r :| r in overdue && CellOf(r) == Some(k);
      CohortPairsOccur(filtered, k.0);
      NumeratorIsOverdueExposure(rows, filters, threshold, k);
      DenominatorIsCohortDebt(rows, filters, k.0);
    }
  }

  /** Raising the threshold never adds cells, and never turns "no result" into a result. */
  lemma ThresholdMonotone(table: Table, filters: Filters, low: int, high: int)
    requires low <= high
    ensures var lo, hi := CohortMatrix(table, filters, low), CohortMatrix(table, filters, high);
            hi.Matrix? ==> lo.Matrix? && hi.cells.Keys <= lo.cells.Keys
    ensures CohortMatrix(table, filters, low).NoResult? ==> CohortMatrix(table, filters, high).NoResult?
  {
    var lo, hi := CohortMatrix(table, filters, low), CohortMatrix(table, filters, high);
    CohortMatrixOutcome(table, filters, low);
    CohortMatrixOutcome(table, filters, high);
    if hi.Matrix? {
      forall k | k in hi.cells ensures k in lo.cells {
        CohortMatrixCells(table, filters, high, k);
        CohortMatrixCells(table, filters, low, k);
      }
    }
  }

  /** With balances between zero and the disbursed debt, a cell's delinquent balance never
      exceeds its cohort's debt. */
  lemma {:induction false} ExposureWithinDebt(rows: seq<Row>, filters: Filters, threshold: int, k: Cell)
    requires forall r :: r in rows ==> 0.0 <= r.aum <= r.debtAmount
    ensures 0.0 <= OverdueExposure(rows, filters, threshold, k) <= CohortDebt(rows, filters, k.0)
  {
    if |rows| > 0 {
      var pre := rows[..|rows| - 1];
      assert forall r :: r in pre ==> r in rows;
      ExposureWithinDebt(pre, filters, threshold, k);
    }
  }

  /** With balances between zero and the disbursed debt, every cell is a ratio in [0, 1], or
      `NaN` for a cohort whose debt is zero. */
  lemma RatioBounded(table: Table, filters: Filters, threshold: int)
    requires forall r :: r in table.rows ==> 0.0 <= r.aum <= r.debtAmount
    ensures var o := CohortMatrix(table, filters, threshold);
            o.Matrix? ==> forall k :: k in o.cells ==>
              o.cells[k] == NotANumber || (o.cells[k].Finite? && 0.0 <= o.cells[k].value <= 1.0)
  {
    var o := CohortMatrix(table, filters, threshold);
    if o.Matrix? {
      forall k | k in o.cells
        ensures o.cells[k] == NotANumber || (o.cells[k].Finite? && 0.0 <= o.cells[k].value <= 1.0)
      {
        CellBounded(table, filters, threshold, k);
      }
    }
  }

  lemma CellBounded(table: Table, filters: Filters, threshold: int, k: Cell)
    requires forall r :: r in table.rows ==> 0.0 <= r.aum <= r.debtAmount
    ensures var o := CohortMatrix(table, filters, threshold);
            o.Matrix? && k in o.cells ==>
              o.cells[k] == NotANumber || (o.cells[k].Finite? && 0.0 <= o.cells[k].value <= 1.0)
  {
    CohortMatrixValues(table, filters, threshold, k);
    ExposureWithinDebt(table.rows, filters, threshold, k);
    var n, d := OverdueExposure(table.rows, filters, threshold, k), CohortDebt(table.rows, filters, k.0);
    if d != 0.0 {
      QuotientBounded(n, d);
    }
  }

  lemma QuotientBounded(n: real, d: real)
    requires 0.0 <= n <= d && d != 0.0
    ensures 0.0 <= n / d <= 1.0
  {
  }

  /** For a row of a loaded table, the cell (c, m) it is counted in has the disbursement
      month as c and the snapshot month m months later. */
  lemma NormalizedCell(r: Row, c: Period, m: int)
    requires CohortConsistent(r) && CellOf(r) == Some((c, m))
    requires r.observation.Some? && 1 <= r.observation.value.month <= 12
    ensures r.disbursement.Some? && c == ToPeriod(r.disbursement.value)
    ensures ToPeriod(r.observation.value) == Shift(c, m)
  {
  }
}
