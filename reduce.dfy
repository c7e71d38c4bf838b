/** The missing-value reducer `handle_missing_values` (wrangle.py:90-96):
    a column pass then a row pass of `dropna(thresh=...)`, each threshold a
    proportion of the current size rounded with Python's `round`. */
module Reduce {
  import opened Tables
  import opened Frames

  /** Default of both `prop_required_column` and `prop_required_row`. */
  const DefaultProportion: real := 0.5

  /** Python's `round(x, 0)`: the nearest integer, ties to the even one. */
  function RoundHalfEven(x: real): (n: int)
    ensures x - 0.5 <= n as real <= x + 0.5
    ensures (n as real == x - 0.5 || n as real == x + 0.5) ==> n % 2 == 0
  {
    var f := x.Floor;
    var frac := x - f as real;
    if frac < 0.5 then f
    else if frac > 0.5 then f + 1
    else if f % 2 == 0 then f
    else f + 1
  }

  /** `int(round(proportion * count, 0))` */
  function Threshold(proportion: real, count: nat): int
  {
    RoundHalfEven(proportion * count as real)
  }

  /** At the default proportion the threshold is half the count, with a
      half-way value rounded to the even neighbour: 5 asks for 2, 7 for 4. */
  lemma DefaultThreshold(count: nat)
    ensures count % 2 == 0 ==> Threshold(DefaultProportion, count) == count / 2
    ensures count % 4 == 1 ==> Threshold(DefaultProportion, count) == count / 2
    ensures count % 4 == 3 ==> Threshold(DefaultProportion, count) == count / 2 + 1
  {
    var n := Threshold(DefaultProportion, count);
    var x := DefaultProportion * count as real;
    assert x == (count / 2) as real + (if count % 2 == 0 then 0.0 else 0.5);
    if count % 2 == 1 {
      assert n == count / 2 || n == count / 2 + 1;
    }
  }

  /** A zero proportion asks for nothing; a proportion of one asks for all. */
  lemma ThresholdBounds(count: nat)
    ensures Threshold(0.0, count) == 0
    ensures Threshold(1.0, count) == count
  {
    var n := Threshold(1.0, count);
    assert count as real - 0.5 <= n as real <= count as real + 0.5;
  }

  /** `handle_missing_values(df, prop_required_column, prop_required_row)` on a
      frame value. The column threshold is taken from the row count before
      anything is dropped; the row threshold from the column count after the
      column pass; a row is judged on the surviving columns only. */
  function HandleMissing(t: Table, propColumn: real, propRow: real): (r: Table)
    requires Rectangular(t)
    ensures Rectangular(r)
    ensures var columnThreshold := Threshold(propColumn, |t.rows|);
            var keep := Kept(DenseColumns(t, columnThreshold));
            |r.columns| == |keep| &&
            (forall j :: 0 <= j < |t.columns| ==> (j in keep <==> columnThreshold <= ColumnNonMissing(t.rows, j))) &&
            (forall k :: 0 <= k < |keep| ==> keep[k] < |t.columns| && r.columns[k] == t.columns[keep[k]])
    ensures Subsequence(r.columns, t.columns)
    ensures var mid := DropNaColumns(t, Threshold(propColumn, |t.rows|));
            r.columns == mid.columns &&
            (forall row :: row in r.rows <==> row in mid.rows && Threshold(propRow, |mid.columns|) <= NonMissing(row)) &&
            (forall row :: multiset(r.rows)[row] ==
               if Threshold(propRow, |mid.columns|) <= NonMissing(row) then multiset(mid.rows)[row] else 0) &&
            Subsequence(r.rows, mid.rows)
  {
    var mid := DropNaColumns(t, Threshold(propColumn, |t.rows|));
    DropNaRows(mid, Threshold(propRow, |mid.columns|))
  }

  /** The positions of an all-true mask are all positions. */
  lemma {:induction false} KeptAll(mask: seq<bool>)
    requires forall j :: 0 <= j < |mask| ==> mask[j]
    ensures Kept(mask) == seq(|mask|, j => j)
  {
    if mask != [] {
      KeptAll(mask[..|mask| - 1]);
    }
  }

  /** Proportions of zero return the frame unchanged. */
  lemma HandleMissingZero(t: Table)
    requires Rectangular(t)
    ensures HandleMissing(t, 0.0, 0.0) == t
  {
    ThresholdBounds(|t.rows|);
    var mask := DenseColumns(t, 0);
    KeptAll(mask);
    var mid := DropNaColumns(t, 0);
    assert mid.columns == t.columns;
    assert forall i :: 0 <= i < |t.rows| ==> mid.rows[i] == t.rows[i];
    assert mid == t;
    ThresholdBounds(|mid.columns|);
    FilterAll(mid.rows, AtLeast(0));
  }

  /** Proportions of one keep exactly the columns without a missing cell, then
      exactly the rows without a missing cell among them. */
  lemma HandleMissingFull(t: Table)
    requires Rectangular(t)
    ensures var keep := Kept(DenseColumns(t, |t.rows|));
            forall j :: 0 <= j < |t.columns| ==> (j in keep <==> MissingInColumn(t.rows, j) == 0)
    ensures var mid := DropNaColumns(t, |t.rows|);
            var r := HandleMissing(t, 1.0, 1.0);
            r.columns == mid.columns &&
            (forall row :: row in r.rows <==> row in mid.rows && MissingCells(row) == 0) &&
            (forall row :: row in mid.rows ==> multiset(r.rows)[row] == if MissingCells(row) == 0 then multiset(mid.rows)[row] else 0)
  {
    ThresholdBounds(|t.rows|);
    var mid := DropNaColumns(t, |t.rows|);
    ThresholdBounds(|mid.columns|);
    assert forall row :: row in mid.rows ==> |row| == |mid.columns|;
  }

  /** The column pass keeps a labelled column exactly when it has enough
      present cells, and the labels stay unique and in order. */
  lemma HandleMissingColumnRule(t: Table, propColumn: real, propRow: real)
    requires Valid(t)
    ensures var r := HandleMissing(t, propColumn, propRow);
            Distinct(r.columns) &&
            forall j :: 0 <= j < |t.columns| ==>
              (t.columns[j] in r.columns <==> Threshold(propColumn, |t.rows|) <= ColumnNonMissing(t.rows, j))
  {
    var r := HandleMissing(t, propColumn, propRow);
    var keep := Kept(DenseColumns(t, Threshold(propColumn, |t.rows|)));
    SubsequenceDistinct(r.columns, t.columns);
    forall j | 0 <= j < |t.columns|
      ensures t.columns[j] in r.columns <==> j in keep
    {
      if t.columns[j] in r.columns {
        var k :| 0 <= k < |r.columns| && r.columns[k] == t.columns[j];
        assert keep[k] == j;
      }
      if j in keep {
        var k :| 0 <= k < |keep| && keep[k] == j;
        assert r.columns[k] == t.columns[j];
      }
    }
  }

  /** `handle_missing_values` on a frame: both passes update the caller's
      frame in place. */
  method HandleMissingValues(df: Frame, propColumn: real, propRow: real)
    requires df.Valid()
    modifies df
    ensures df.Valid() && df.Snapshot() == HandleMissing(old(df.Snapshot()), propColumn, propRow)
  {
    var threshold := Threshold(propColumn, |df.rows|);
    df.DropNaColumnsInPlace(threshold);
    threshold := Threshold(propRow, |df.columns|);
    df.DropNaRowsInPlace(threshold);
  }
}
