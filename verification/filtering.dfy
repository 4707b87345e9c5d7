/** The column filters applied before aggregating: for every column whose selection is
    non-empty and does not contain "Todos", a row survives only if its value for that column
    is one of the selected values. Columns combine by conjunction, values of one column by
    disjunction. */
module Filtering {
  import opened Wrappers
  import opened Dataset

  /** The selection entry that means "every value". */
  const AllMarker := "Todos"

  type Selection = seq<string>

  /** Selected values per column; a map without entries is the same as no filters at all. */
  type Filters = map<string, Selection>

  /** Whether a selection restricts its column at all. */
  predicate Constrains(sel: Selection) {
    |sel| > 0 && AllMarker !in sel
  }

  /** `isin` for one row: an empty cell matches no selection. */
  predicate Matches(r: Row, column: string, sel: Selection) {
    column in r.attributes && r.attributes[column] in sel
  }

  /** Whether a row passes the filters of the given columns. */
  predicate AdmitsOn(filters: Filters, columns: set<string>, r: Row) {
    forall c :: c in columns && c in filters && Constrains(filters[c]) ==> Matches(r, c, filters[c])
  }

  /** Whether a row passes every filter. */
  predicate Admits(filters: Filters, r: Row) {
    AdmitsOn(filters, filters.Keys, r)
  }

  /** Whether every constraining filter among `done` names a column of the table. */
  predicate KnownColumnsOn(filters: Filters, done: set<string>, columns: set<string>) {
    forall c :: c in done && c in filters && Constrains(filters[c]) ==> c in columns
  }

  /** Whether every constraining filter names a column of the table (otherwise pandas raises
      a `KeyError` when it looks the column up). */
  predicate KnownColumns(filters: Filters, columns: set<string>) {
    KnownColumnsOn(filters, filters.Keys, columns)
  }

  /** The rows, in their order, that pass the filters of `columns`. */
  function FilteredOn(rows: seq<Row>, filters: Filters, columns: set<string>): seq<Row> {
    if |rows| == 0 then []
    else
      var r := rows[|rows| - 1];
      FilteredOn(rows[..|rows| - 1], filters, columns) + (if AdmitsOn(filters, columns, r) then [r] else [])
  }

  /** The rows that pass every filter. */
  function Filtered(rows: seq<Row>, filters: Filters): seq<Row> {
    FilteredOn(rows, filters, filters.Keys)
  }

  /** One `df[df[column].isin(sel)]` step. */
  function KeepMatching(rows: seq<Row>, column: string, sel: Selection): (kept: seq<Row>)
    ensures forall r :: r in kept <==> r in rows && Matches(r, column, sel)
  {
    if |rows| == 0 then []
    else
      var r := rows[|rows| - 1];
      KeepMatching(rows[..|rows| - 1], column, sel) + (if Matches(r, column, sel) then [r] else [])
  }

  /** Applies the filters one column at a time, in whatever order the map yields its columns,
      as the loop of the source does. `None` is the `KeyError` raised by a constraining filter
      on a column the table does not have. */
  method ApplyFilters(table: Table, filters: Filters) returns (kept: Option<seq<Row>>)
    ensures kept.None? <==> !KnownColumns(filters, table.columns)
    ensures kept.Some? ==> kept.value == Filtered(table.rows, filters)
  {
    var rows := table.rows;
    var remaining := filters.Keys;
    var done: set<string> := {};
    FilteredOnNothing(table.rows, filters);
    while remaining != {}
      invariant remaining + done == filters.Keys && remaining !! done
      invariant KnownColumnsOn(filters, done, table.columns)
      invariant rows == FilteredOn(table.rows, filters, done)
      decreases remaining
    {
      var c :| c in remaining;
      FilteredOnStep(table.rows, filters, done, c);
      if Constrains(filters[c]) {
        if c !in table.columns {
          return None;
        }
        rows := KeepMatching(rows, c, filters[c]);
      }
      remaining := remaining - {c};
      done := done + {c};
    }
    assert done == filters.Keys;
    return Some(rows);
  }

  /** With no column considered, nothing is removed. */
  lemma {:induction false} FilteredOnNothing(rows: seq<Row>, filters: Filters)
    ensures FilteredOn(rows, filters, {}) == rows
  {
    if |rows| > 0 {
      FilteredOnNothing(rows[..|rows| - 1], filters);
    }
  }

  /** Taking one more column into account is one more `isin` step, or nothing when that
      column's selection does not constrain. */
  lemma {:induction false} FilteredOnStep(rows: seq<Row>, filters: Filters, done: set<string>, c: string)
    requires c in filters
    ensures FilteredOn(rows, filters, done + {c}) ==
              if Constrains(filters[c]) then KeepMatching(FilteredOn(rows, filters, done), c, filters[c])
              else FilteredOn(rows, filters, done)
  {
    if |rows| > 0 {
      var pre, r := rows[..|rows| - 1], rows[|rows| - 1];
      FilteredOnStep(pre, filters, done, c);
      AdmitsOnStep(filters, done, c, r);
      var before := FilteredOn(pre, filters, done);
      assert FilteredOn(rows, filters, done) == before + (if AdmitsOn(filters, done, r) then [r] else []);
      assert FilteredOn(rows, filters, done + {c}) ==
               FilteredOn(pre, filters, done + {c}) + (if AdmitsOn(filters, done + {c}, r) then [r] else []);
      if Constrains(filters[c]) {
        if AdmitsOn(filters, done, r) {
          assert (before + [r])[..|before|] == before;
          assert KeepMatching(before + [r], c, filters[c]) ==
                   KeepMatching(before, c, filters[c]) + (if Matches(r, c, filters[c]) then [r] else []);
        } else {
          assert FilteredOn(rows, filters, done) == before;
          assert FilteredOn(rows, filters, done + {c}) == FilteredOn(pre, filters, done + {c});
          assert FilteredOn(pre, filters, done + {c}) == KeepMatching(before, c, filters[c]);
        }
      }
    }
  }

  lemma AdmitsOnStep(filters: Filters, done: set<string>, c: string, r: Row)
    requires c in filters
    ensures AdmitsOn(filters, done + {c}, r) <==>
              AdmitsOn(filters, done, r) && (Constrains(filters[c]) ==> Matches(r, c, filters[c]))
  {
  }

  /** A row survives the filters exactly when it is in the input and, for every constraining
      column, its value is selected; it survives as many times as it occurs. */
  lemma FilteredMembership(rows: seq<Row>, filters: Filters, r: Row)
    ensures r in Filtered(rows, filters) <==>
              r in rows && forall c :: c in filters && Constrains(filters[c]) ==>
                                         c in r.attributes && r.attributes[c] in filters[c]
    ensures multiset(Filtered(rows, filters))[r] == if Admits(filters, r) then multiset(rows)[r] else 0
  {
    FilteredOnCount(rows, filters, filters.Keys, r);
    assert r in Filtered(rows, filters) <==> multiset(Filtered(rows, filters))[r] > 0;
    assert r in rows <==> multiset(rows)[r] > 0;
  }

  /** Each row occurs in the result as often as in the input when it passes, else never. */
  lemma {:induction false} FilteredOnCount(rows: seq<Row>, filters: Filters, columns: set<string>, r: Row)
    ensures multiset(FilteredOn(rows, filters, columns))[r] ==
              if AdmitsOn(filters, columns, r) then multiset(rows)[r] else 0
  {
    if |rows| > 0 {
      var pre, last := rows[..|rows| - 1], rows[|rows| - 1];
      assert rows == pre + [last];
      FilteredOnCount(pre, filters, columns, r);
    }
  }

  /** The sub-sequence of `s` that a mask selects. */
  function Pick<T>(s: seq<T>, mask: seq<bool>): seq<T>
    requires |mask| == |s|
  {
    if |s| == 0 then []
    else Pick(s[..|s| - 1], mask[..|s| - 1]) + (if mask[|s| - 1] then [s[|s| - 1]] else [])
  }

  /** `a` is `b` with some elements left out and the rest in their order. */
  ghost predicate IsSubsequence<T>(a: seq<T>, b: seq<T>) {
    exists mask: seq<bool> :: |mask| == |b| && Pick(b, mask) == a
  }

  function AdmitMask(rows: seq<Row>, filters: Filters): (mask: seq<bool>)
    ensures |mask| == |rows|
    ensures Pick(rows, mask) == Filtered(rows, filters)
  {
    if |rows| == 0 then []
    else
      var mask := AdmitMask(rows[..|rows| - 1], filters) + [Admits(filters, rows[|rows| - 1])];
      assert mask[..|rows| - 1] == AdmitMask(rows[..|rows| - 1], filters);
      mask
  }

  /** Filtering only removes rows and keeps the order of the rest. */
  lemma FilteredIsSubsequence(rows: seq<Row>, filters: Filters)
    ensures IsSubsequence(Filtered(rows, filters), rows)
  {
    var mask := AdmitMask(rows, filters);
    assert Pick(rows, mask) == Filtered(rows, filters);
  }

  /** Filters that impose nothing keep every row. */
  lemma FilteredUnconstrained(rows: seq<Row>, filters: Filters)
    requires forall c :: c in filters ==> !Constrains(filters[c])
    ensures Filtered(rows, filters) == rows
  {
    FilteredOnNothing(rows, filters);
    AdmitsEverywhere(rows, filters);
  }

  lemma {:induction false} AdmitsEverywhere(rows: seq<Row>, filters: Filters)
    requires forall c :: c in filters ==> !Constrains(filters[c])
    ensures FilteredOn(rows, filters, filters.Keys) == FilteredOn(rows, filters, {})
  {
    if |rows| > 0 {
      AdmitsEverywhere(rows[..|rows| - 1], filters);
    }
  }

  /** `tight` restricts at least as much as `loose`: every column `loose` constrains is
      constrained by `tight` to a subset of the values `loose` selects. */
  predicate Tightens(tight: Filters, loose: Filters) {
    forall c :: c in loose && Constrains(loose[c]) ==>
      c in tight && Constrains(tight[c]) && forall v :: v in tight[c] ==> v in loose[c]
  }

  /** Tightening the filters never adds rows: the tighter result is what the tighter filters
      keep of the looser result, and so an order-preserving sub-sequence of it. */
  lemma {:induction false} TightenedFilters(rows: seq<Row>, tight: Filters, loose: Filters)
    requires Tightens(tight, loose)
    ensures Filtered(rows, tight) == Filtered(Filtered(rows, loose), tight)
    ensures IsSubsequence(Filtered(rows, tight), Filtered(rows, loose))
  {
    if |rows| > 0 {
      var pre, r := rows[..|rows| - 1], rows[|rows| - 1];
      TightenedFilters(pre, tight, loose);
      TightAdmits(tight, loose, r);
      var looser := Filtered(pre, loose);
      assert Filtered(rows, loose) == looser + (if Admits(loose, r) then [r] else []);
      assert Filtered(rows, tight) == Filtered(pre, tight) + (if Admits(tight, r) then [r] else []);
      if Admits(loose, r) {
        assert (looser + [r])[..|looser|] == looser;
        assert Filtered(looser + [r], tight) == Filtered(looser, tight) + (if Admits(tight, r) then [r] else []);
      } else {
        assert !Admits(tight, r);
        assert Filtered(rows, tight) == Filtered(pre, tight);
        assert Filtered(rows, loose) == looser;
        assert Filtered(Filtered(rows, loose), tight) == Filtered(looser, tight);
      }
    }
    FilteredIsSubsequence(Filtered(rows, loose), tight);
  }

  /** A row the tighter filters admit is admitted by the looser ones. */
  lemma TightAdmits(tight: Filters, loose: Filters, r: Row)
    requires Tightens(tight, loose)
    ensures Admits(tight, r) ==> Admits(loose, r)
  {
  }
}
