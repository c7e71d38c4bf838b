/** A mutable data frame: the object that `dropna(..., inplace=True)` and
    column assignment `df[name] = ...` update in place, so that a caller that
    handed a frame to wrangle.py sees those updates afterwards. */
module Frames {
  import opened Tables

  class Frame {
    var columns: seq<string>
    var rows: seq<Row>

    /** The frame's current contents as a table value. */
    function Snapshot(): Table
      reads this
    {
      Table(columns, rows)
    }

    ghost predicate Valid()
      reads this
    {
      Rectangular(Snapshot())
    }

    constructor (t: Table)
      requires Rectangular(t)
      ensures Valid() && Snapshot() == t
    {
      columns, rows := t.columns, t.rows;
    }

    /** `self.dropna(axis=1, thresh=threshold, inplace=True)` */
    method DropNaColumnsInPlace(threshold: int)
      requires Valid()
      modifies this
      ensures Valid() && Snapshot() == DropNaColumns(old(Snapshot()), threshold)
    {
      var r := DropNaColumns(Snapshot(), threshold);
      columns, rows := r.columns, r.rows;
    }

    /** `self.dropna(axis=0, thresh=threshold, inplace=True)` */
    method DropNaRowsInPlace(threshold: int)
      requires Valid()
      modifies this
      ensures Valid() && Snapshot() == DropNaRows(old(Snapshot()), threshold)
    {
      var r := DropNaRows(Snapshot(), threshold);
      columns, rows := r.columns, r.rows;
    }

    /** `self[name] = values` */
    method Assign(name: string, values: seq<Cell>)
      requires Valid() && |values| == |rows|
      modifies this
      ensures Valid() && Snapshot() == SetColumn(old(Snapshot()), name, values)
    {
      var r := SetColumn(Snapshot(), name, values);
      columns, rows := r.columns, r.rows;
    }
  }
}
