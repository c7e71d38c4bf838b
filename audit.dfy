/** The missing-value audits `missing_values_per_column` (wrangle.py:65-71)
    and `missing_values_per_row` (wrangle.py:74-81): read-only reports of how
    many cells are missing, by column and by row. */
module Audit {
  import opened Tables

  /** One line of the per-column report: label, `count`, `percent`. The
      percent is the column's mean of `isna()`, which is NaN (`None` here)
      when the frame has no rows. */
  datatype ColumnStat = ColumnStat(name: string, count: nat, percent: Option<real>)

  /** One line of the per-row report: `n_cols_missing`, `percent_missing`,
      and `row_counts`, the number of rows that share that pair. */
  datatype RowGroup = RowGroup(missing: nat, percent: real, rows: nat)

  function Share(count: nat, total: nat): Option<real>
  {
    if total == 0 then None else Some(count as real / total as real)
  }

  function ColumnEntry(t: Table, j: nat): ColumnStat
    requires Rectangular(t) && j < |t.columns|
  {
    ColumnStat(t.columns[j], MissingInColumn(t.rows, j), Share(MissingInColumn(t.rows, j), |t.rows|))
  }

  /** The statistics of the first `m` columns, in column order. */
  function Entries(t: Table, m: nat): (s: seq<ColumnStat>)
    requires Rectangular(t) && m <= |t.columns|
    ensures |s| == m && forall j :: 0 <= j < m ==> s[j] == ColumnEntry(t, j)
  {
    if m == 0 then [] else Entries(t, m - 1) + [ColumnEntry(t, m - 1)]
  }

  predicate SortedByCountDescending(s: seq<ColumnStat>) {
    forall a, b :: 0 <= a < b < |s| ==> s[a].count >= s[b].count
  }

  /** Inserting one line into a report sorted by count descending. */
  function Insert(e: ColumnStat, s: seq<ColumnStat>): (r: seq<ColumnStat>)
    requires SortedByCountDescending(s)
    ensures SortedByCountDescending(r)
    ensures forall x :: x in r <==> x == e || x in s
  {
    if s == [] || e.count >= s[0].count then [e] + s
    else
      var rest := Insert(e, s[1..]);
      assert forall x :: x in s[1..] ==> x in s;
      assert forall x :: x in rest ==> x.count <= s[0].count;
      [s[0]] + rest
  }

  /** Insertion adds exactly the inserted line. */
  lemma {:induction false} InsertPermutes(e: ColumnStat, s: seq<ColumnStat>)
    requires SortedByCountDescending(s)
    ensures multiset(Insert(e, s)) == multiset(s) + multiset{e}
  {
    if s != [] && e.count < s[0].count {
      InsertPermutes(e, s[1..]);
      assert s == [s[0]] + s[1..];
    }
  }

  /** `sort_values(ascending=False)` on the counts. The sort pandas uses is not
      stable, so the order among equal counts is not part of the contract. */
  function SortByCountDescending(s: seq<ColumnStat>): (r: seq<ColumnStat>)
    ensures SortedByCountDescending(r)
    ensures multiset(r) == multiset(s)
  {
    if s == [] then []
    else
      var rest := SortByCountDescending(s[1..]);
      InsertPermutes(s[0], rest);
      assert s == [s[0]] + s[1..];
      Insert(s[0], rest)
  }

  /** `missing_values_per_column(df)`: one line per column, the count of its
      missing cells and their share of the rows, ordered by count descending. */
  function MissingPerColumn(t: Table): (r: seq<ColumnStat>)
    requires Rectangular(t)
    ensures |r| == |t.columns|
    ensures SortedByCountDescending(r)
    ensures multiset(r) == multiset(Entries(t, |t.columns|))
  {
    var r := SortByCountDescending(Entries(t, |t.columns|));
    assert |r| == |t.columns| by {
      assert |multiset(r)| == |multiset(Entries(t, |t.columns|))|;
    }
    r
  }

  /** Each line of the per-column report is the statistic of one column. */
  lemma MissingPerColumnLines(t: Table, e: ColumnStat)
    requires Rectangular(t) && e in MissingPerColumn(t)
    ensures exists j :: 0 <= j < |t.columns| && e.name == t.columns[j] &&
              e.count == MissingInColumn(t.rows, j) && e.percent == Share(e.count, |t.rows|)
  {
    assert e in multiset(MissingPerColumn(t));
    assert e in multiset(Entries(t, |t.columns|));
    var j :| 0 <= j < |t.columns| && Entries(t, |t.columns|)[j] == e;
    assert e == ColumnEntry(t, j);
  }

  // ---------------------------------------------------------------------
  // Per-row report

  /** Number of rows with exactly `k` missing cells. */
  function RowsMissing(rows: seq<Row>, k: nat): (n: nat)
    ensures n <= |rows|
  {
    if rows == [] then 0
    else
      var front := rows[..|rows| - 1];
      var n := RowsMissing(front, k) + (if MissingCells(rows[|rows| - 1]) == k then 1 else 0);
      assert forall i :: 0 <= i < |front| ==> front[i] == rows[i];
      n
  }

  /** Some row misses exactly `k` cells just when the count for `k` is positive. */
  lemma {:induction false} RowsMissingPositive(rows: seq<Row>, k: nat)
    ensures RowsMissing(rows, k) > 0 <==> exists i :: 0 <= i < |rows| && MissingCells(rows[i]) == k
  {
    if rows != [] {
      var front := rows[..|rows| - 1];
      RowsMissingPositive(front, k);
      assert forall i :: 0 <= i < |front| ==> front[i] == rows[i];
      if RowsMissing(front, k) > 0 {
        var i :| 0 <= i < |front| && MissingCells(front[i]) == k;
        assert MissingCells(rows[i]) == k;
      }
    }
  }

  function GroupKeys(groups: seq<RowGroup>): set<nat> {
    set g | g in groups :: g.missing
  }

  /** `r` lists, in ascending order and once each, the groups of rows with
      `k` to `width` missing cells that some row has, with their sizes and
      shares. */
  predicate Grouped(t: Table, k: nat, r: seq<RowGroup>)
    requires Rectangular(t) && |t.columns| > 0
  {
    (forall a, b :: 0 <= a < b < |r| ==> r[a].missing < r[b].missing) &&
    (forall g :: g in r ==>
       k <= g.missing <= |t.columns| && 0 < g.rows == RowsMissing(t.rows, g.missing) &&
       g.percent == g.missing as real / |t.columns| as real) &&
    (forall m :: k <= m <= |t.columns| && 0 < RowsMissing(t.rows, m) ==> m in GroupKeys(r))
  }

  /** The groups from `k + 1` on are the groups from `k` on when no row
      misses exactly `k` cells. */
  lemma GroupedSkip(t: Table, k: nat, rest: seq<RowGroup>)
    requires Rectangular(t) && |t.columns| > 0 && RowsMissing(t.rows, k) == 0
    requires Grouped(t, k + 1, rest)
    ensures Grouped(t, k, rest)
  {
    forall m | k <= m <= |t.columns| && 0 < RowsMissing(t.rows, m)
      ensures m in GroupKeys(rest)
    {
      assert m != k;
    }
  }

  /** Putting the group of `k` missing cells in front of the groups from
      `k + 1` on gives the groups from `k` on. */
  lemma GroupedPrepend(t: Table, k: nat, rest: seq<RowGroup>)
    requires Rectangular(t) && |t.columns| > 0 && k <= |t.columns| && 0 < RowsMissing(t.rows, k)
    requires Grouped(t, k + 1, rest)
    ensures Grouped(t, k, [RowGroup(k, k as real / |t.columns| as real, RowsMissing(t.rows, k))] + rest)
  {
    var head := RowGroup(k, k as real / |t.columns| as real, RowsMissing(t.rows, k));
    var r := [head] + rest;
    forall a, b | 0 <= a < b < |r|
      ensures r[a].missing < r[b].missing
    {
      assert r[b] == rest[b - 1];
      if a == 0 {
        assert rest[b - 1] in rest;
      } else {
        assert r[a] == rest[a - 1];
      }
    }
    forall g | g in r
      ensures k <= g.missing <= |t.columns| && 0 < g.rows == RowsMissing(t.rows, g.missing) &&
              g.percent == g.missing as real / |t.columns| as real
    {
      if g != head {
        assert g in rest;
      }
    }
    forall m | k <= m <= |t.columns| && 0 < RowsMissing(t.rows, m)
      ensures m in GroupKeys(r)
    {
      if m == k {
        assert head in r;
      } else {
        assert m in GroupKeys(rest);
        var g :| g in rest && g.missing == m;
        assert g in r;
      }
    }
  }

  /** The groups with `k` to `width` missing cells that some row has. */
  function GroupsFrom(t: Table, k: nat): (r: seq<RowGroup>)
    requires Rectangular(t) && |t.columns| > 0
    ensures Grouped(t, k, r)
    decreases |t.columns| + 1 - k
  {
    if k > |t.columns| then []
    else
      var rest := GroupsFrom(t, k + 1);
      if RowsMissing(t.rows, k) > 0 then
        GroupedPrepend(t, k, rest);
        [RowGroup(k, k as real / |t.columns| as real, RowsMissing(t.rows, k))] + rest
      else
        GroupedSkip(t, k, rest);
        rest
  }

  /** `missing_values_per_row(df)`: the rows grouped by how many cells they
      miss, one line per count that occurs, in ascending order. With no
      columns every row's share is NaN and `value_counts` drops them all. */
  function MissingPerRow(t: Table): (r: seq<RowGroup>)
    requires Rectangular(t)
    ensures |t.columns| == 0 ==> r == []
    ensures forall a, b :: 0 <= a < b < |r| ==> r[a].missing < r[b].missing
    ensures forall g :: g in r ==>
              0 < g.rows == RowsMissing(t.rows, g.missing) &&
              g.percent == g.missing as real / |t.columns| as real
    ensures |t.columns| > 0 ==>
              forall i :: 0 <= i < |t.rows| ==> MissingCells(t.rows[i]) in GroupKeys(r)
  {
    if |t.columns| == 0 then []
    else
      var r := GroupsFrom(t, 0);
      forall i | 0 <= i < |t.rows|
        ensures MissingCells(t.rows[i]) in GroupKeys(r)
      {
        RowsMissingPositive(t.rows, MissingCells(t.rows[i]));
      }
      r
  }

  // ---------------------------------------------------------------------
  // Totals

  function SumCounts(s: seq<ColumnStat>): nat {
    if s == [] then 0 else s[0].count + SumCounts(s[1..])
  }

  function SumRows(groups: seq<RowGroup>): nat {
    if groups == [] then 0 else groups[0].rows + SumRows(groups[1..])
  }

  /** Missing cells accounted for by a per-row report: count times rows. */
  function SumCells(groups: seq<RowGroup>): nat {
    if groups == [] then 0 else groups[0].missing * groups[0].rows + SumCells(groups[1..])
  }

  /** Missing cells of a frame, counted row by row. */
  function TotalMissing(rows: seq<Row>): nat {
    if rows == [] then 0 else TotalMissing(rows[..|rows| - 1]) + MissingCells(rows[|rows| - 1])
  }

  /** Missing cells of the first `m` columns, counted column by column. */
  function ColumnTotal(rows: seq<Row>, m: nat): nat
    requires forall i :: 0 <= i < |rows| ==> m <= |rows[i]|
  {
    if m == 0 then 0 else ColumnTotal(rows, m - 1) + MissingInColumn(rows, m - 1)
  }

  /** Missing cells of the first `m` columns, counted row by row. */
  function PrefixTotal(rows: seq<Row>, m: nat): nat
    requires forall i :: 0 <= i < |rows| ==> m <= |rows[i]|
  {
    if rows == [] then 0 else PrefixTotal(rows[..|rows| - 1], m) + MissingCells(rows[|rows| - 1][..m])
  }

  lemma {:induction false} PrefixTotalStep(rows: seq<Row>, m: nat)
    requires forall i :: 0 <= i < |rows| ==> m < |rows[i]|
    ensures PrefixTotal(rows, m + 1) == PrefixTotal(rows, m) + MissingInColumn(rows, m)
  {
    if rows != [] {
      var last := rows[|rows| - 1];
      PrefixTotalStep(rows[..|rows| - 1], m);
      assert last[..m + 1][..m] == last[..m];
    }
  }

  lemma {:induction false} ColumnTotalIsPrefixTotal(rows: seq<Row>, m: nat)
    requires forall i :: 0 <= i < |rows| ==> m <= |rows[i]|
    ensures ColumnTotal(rows, m) == PrefixTotal(rows, m)
  {
    if m == 0 {
      PrefixTotalZero(rows);
    } else {
      ColumnTotalIsPrefixTotal(rows, m - 1);
      PrefixTotalStep(rows, m - 1);
    }
  }

  lemma {:induction false} PrefixTotalZero(rows: seq<Row>)
    ensures PrefixTotal(rows, 0) == 0
  {
    if rows != [] {
      PrefixTotalZero(rows[..|rows| - 1]);
    }
  }

  lemma {:induction false} PrefixTotalWhole(rows: seq<Row>, width: nat)
    requires forall i :: 0 <= i < |rows| ==> |rows[i]| == width
    ensures PrefixTotal(rows, width) == TotalMissing(rows)
  {
    if rows != [] {
      PrefixTotalWhole(rows[..|rows| - 1], width);
      assert rows[|rows| - 1][..width] == rows[|rows| - 1];
    }
  }

  /** Counting missing cells by column or by row gives the same total. */
  lemma ColumnAndRowTotalsAgree(t: Table)
    requires Rectangular(t)
    ensures ColumnTotal(t.rows, |t.columns|) == TotalMissing(t.rows)
  {
    ColumnTotalIsPrefixTotal(t.rows, |t.columns|);
    PrefixTotalWhole(t.rows, |t.columns|);
  }

  lemma {:induction false} SumCountsInsert(e: ColumnStat, s: seq<ColumnStat>)
    requires SortedByCountDescending(s)
    ensures SumCounts(Insert(e, s)) == e.count + SumCounts(s)
  {
    if !(s == [] || e.count >= s[0].count) {
      SumCountsInsert(e, s[1..]);
    }
  }

  lemma {:induction false} SumCountsSort(s: seq<ColumnStat>)
    ensures SumCounts(SortByCountDescending(s)) == SumCounts(s)
  {
    if s != [] {
      SumCountsSort(s[1..]);
      SumCountsInsert(s[0], SortByCountDescending(s[1..]));
    }
  }

  lemma {:induction false} SumCountsSnoc(s: seq<ColumnStat>, e: ColumnStat)
    ensures SumCounts(s + [e]) == SumCounts(s) + e.count
  {
    if s != [] {
      assert (s + [e])[1..] == s[1..] + [e];
      SumCountsSnoc(s[1..], e);
    }
  }

  lemma {:induction false} SumCountsEntries(t: Table, m: nat)
    requires Rectangular(t) && m <= |t.columns|
    ensures SumCounts(Entries(t, m)) == ColumnTotal(t.rows, m)
  {
    if m > 0 {
      SumCountsEntries(t, m - 1);
      SumCountsSnoc(Entries(t, m - 1), ColumnEntry(t, m - 1));
    }
  }

  /** Sum over k = lo..hi of the rows missing exactly k cells, unweighted and
      weighted by k. */
  function CountFrom(rows: seq<Row>, lo: nat, hi: nat): nat
    decreases hi + 1 - lo
  {
    if lo > hi then 0 else RowsMissing(rows, lo) + CountFrom(rows, lo + 1, hi)
  }

  function WeightFrom(rows: seq<Row>, lo: nat, hi: nat): nat
    decreases hi + 1 - lo
  {
    if lo > hi then 0 else lo * RowsMissing(rows, lo) + WeightFrom(rows, lo + 1, hi)
  }

  lemma RowsMissingSnoc(rows: seq<Row>, row: Row, k: nat)
    ensures RowsMissing(rows + [row], k) == RowsMissing(rows, k) + (if MissingCells(row) == k then 1 else 0)
  {
    assert (rows + [row])[..|rows|] == rows;
  }

  lemma {:induction false} CountFromSnoc(rows: seq<Row>, row: Row, lo: nat, hi: nat)
    ensures CountFrom(rows + [row], lo, hi) ==
            CountFrom(rows, lo, hi) + (if lo <= MissingCells(row) <= hi then 1 else 0)
    decreases hi + 1 - lo
  {
    if lo <= hi {
      CountFromSnoc(rows, row, lo + 1, hi);
      RowsMissingSnoc(rows, row, lo);
    }
  }

  lemma {:induction false} WeightFromSnoc(rows: seq<Row>, row: Row, lo: nat, hi: nat)
    ensures WeightFrom(rows + [row], lo, hi) ==
            WeightFrom(rows, lo, hi) + (if lo <= MissingCells(row) <= hi then MissingCells(row) else 0)
    decreases hi + 1 - lo
  {
    if lo <= hi {
      var m := MissingCells(row);
      WeightFromSnoc(rows, row, lo + 1, hi);
      RowsMissingSnoc(rows, row, lo);
      var before := RowsMissing(rows, lo);
      var after := RowsMissing(rows + [row], lo);
      var restBefore := WeightFrom(rows, lo + 1, hi);
      var restAfter := WeightFrom(rows + [row], lo + 1, hi);
      assert WeightFrom(rows + [row], lo, hi) == lo * after + restAfter;
      assert WeightFrom(rows, lo, hi) == lo * before + restBefore;
      if m == lo {
        assert after == before + 1;
        assert restAfter == restBefore;
        assert lo * after == lo * before + lo by { MultiplyStep(lo, before); }
      } else {
        assert after == before;
      }
    }
  }

  lemma MultiplyStep(a: nat, b: nat)
    ensures a * (b + 1) == a * b + a
  {
  }

  /** Every row falls in exactly one count from 0 to `hi`. */
  lemma {:induction false} FromAll(rows: seq<Row>, hi: nat)
    requires forall i :: 0 <= i < |rows| ==> MissingCells(rows[i]) <= hi
    ensures CountFrom(rows, 0, hi) == |rows|
    ensures WeightFrom(rows, 0, hi) == TotalMissing(rows)
  {
    if rows == [] {
      FromEmpty(hi, 0);
    } else {
      var front := rows[..|rows| - 1];
      FromAll(front, hi);
      CountFromSnoc(front, rows[|rows| - 1], 0, hi);
      WeightFromSnoc(front, rows[|rows| - 1], 0, hi);
      assert front + [rows[|rows| - 1]] == rows;
    }
  }

  lemma {:induction false} FromEmpty(hi: nat, lo: nat)
    ensures CountFrom([], lo, hi) == 0 && WeightFrom([], lo, hi) == 0
    decreases hi + 1 - lo
  {
    if lo <= hi {
      FromEmpty(hi, lo + 1);
    }
  }

  lemma {:induction false} GroupsFromSums(t: Table, k: nat)
    requires Rectangular(t) && |t.columns| > 0
    ensures SumRows(GroupsFrom(t, k)) == CountFrom(t.rows, k, |t.columns|)
    ensures SumCells(GroupsFrom(t, k)) == WeightFrom(t.rows, k, |t.columns|)
    decreases |t.columns| + 1 - k
  {
    if k <= |t.columns| {
      GroupsFromSums(t, k + 1);
    }
  }

  /** The per-row report accounts for every row once: its `row_counts` add
      up to the number of rows (when the frame has columns). */
  lemma RowCountsSumToRows(t: Table)
    requires Rectangular(t) && |t.columns| > 0
    ensures SumRows(MissingPerRow(t)) == |t.rows|
  {
    GroupsFromSums(t, 0);
    FromAll(t.rows, |t.columns|);
  }

  /** The missing cells counted by the per-column report equal those counted
      by the per-row report, and both equal the frame's missing cells. */
  lemma MissingTotalsAgree(t: Table)
    requires Rectangular(t)
    ensures SumCounts(MissingPerColumn(t)) == TotalMissing(t.rows)
    ensures SumCells(MissingPerRow(t)) == TotalMissing(t.rows)
  {
    SumCountsSort(Entries(t, |t.columns|));
    SumCountsEntries(t, |t.columns|);
    ColumnAndRowTotalsAgree(t);
    if |t.columns| > 0 {
      GroupsFromSums(t, 0);
      FromAll(t.rows, |t.columns|);
    } else {
      TotalMissingNoColumns(t.rows);
    }
  }

  lemma {:induction false} TotalMissingNoColumns(rows: seq<Row>)
    requires forall i :: 0 <= i < |rows| ==> |rows[i]| == 0
    ensures TotalMissing(rows) == 0
  {
    if rows != [] {
      TotalMissingNoColumns(rows[..|rows| - 1]);
    }
  }
}
