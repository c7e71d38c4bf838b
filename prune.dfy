/** The column remover `remove_columns` (wrangle.py:84-87): `df.drop(columns=...)`
    with pandas' default `errors='raise'`. */
module Prune {
  import opened Tables

  /** The default `cols_to_remove`. */
  const DefaultColumnsToRemove: seq<string> := [
    "censustractandblock", "finishedsquarefeet12", "buildingqualitytypeid",
    "heatingorsystemtypeid", "propertyzoningdesc", "heatingorsystemdesc", "unitcnt"]

  /** The requested labels the frame does not have, in request order. */
  function Absent(t: Table, names: seq<string>): (r: seq<string>)
    ensures forall c :: c in r <==> c in names && c !in t.columns
  {
    if names == [] then []
    else
      var rest := Absent(t, names[1..]);
      assert names == [names[0]] + names[1..];
      if names[0] in t.columns then rest else [names[0]] + rest
  }

  /** The column mask of `drop(columns=names)`: true for a label not requested. */
  function Unrequested(columns: seq<string>, names: seq<string>): (mask: seq<bool>)
    ensures |mask| == |columns|
    ensures forall j :: 0 <= j < |columns| ==> (mask[j] <==> columns[j] !in names)
  {
    seq(|columns|, j requires 0 <= j < |columns| => columns[j] !in names)
  }

  /** Keeping the unrequested columns keeps exactly the other labels, in
      order. */
  lemma KeepUnrequestedLabels(t: Table, names: seq<string>)
    requires Rectangular(t)
    ensures var r := KeepColumns(t, Unrequested(t.columns, names));
            (forall c :: c in r.columns <==> c in t.columns && c !in names) &&
            Subsequence(r.columns, t.columns)
  {
    var mask := Unrequested(t.columns, names);
    var cols := KeepColumns(t, mask).columns;
    var idx := Kept(mask);
    assert cols == Project(t.columns, idx);
    ProjectIsSubsequence(t.columns, idx);
    forall c | c in t.columns && c !in names
      ensures c in cols
    {
      var j :| 0 <= j < |t.columns| && t.columns[j] == c;
      assert mask[j] && j in idx;
      var k :| 0 <= k < |idx| && idx[k] == j;
      assert cols[k] == c;
    }
    forall c | c in cols
      ensures c in t.columns && c !in names
    {
      var k :| 0 <= k < |cols| && cols[k] == c;
      assert mask[idx[k]];
    }
  }

  /** `u` holds, in order, the columns of `t` at the positions whose label
      is not requested (every copy of a repeated label), with their cells,
      and every row. */
  ghost predicate KeepsUnrequested(t: Table, names: seq<string>, u: Table)
    requires Rectangular(t)
  {
    var keep := Kept(Unrequested(t.columns, names));
    Rectangular(u) && |u.rows| == |t.rows| && u.columns == Project(t.columns, keep) &&
    forall i, k :: 0 <= i < |u.rows| && 0 <= k < |u.columns| ==> u.rows[i][k] == t.rows[i][keep[k]]
  }

  /** Keeping the unrequested columns keeps them by position. */
  lemma KeepUnrequestedPositions(t: Table, names: seq<string>)
    requires Rectangular(t)
    ensures KeepsUnrequested(t, names, KeepColumns(t, Unrequested(t.columns, names)))
  {
  }

  /** Each kept column holds the cells of a column of `t` with its label. */
  lemma KeepUnrequestedCells(t: Table, names: seq<string>)
    requires Rectangular(t)
    ensures var r := KeepColumns(t, Unrequested(t.columns, names));
            forall k :: 0 <= k < |r.columns| ==>
              exists j :: 0 <= j < |t.columns| && t.columns[j] == r.columns[k] &&
                forall i :: 0 <= i < |t.rows| ==> r.rows[i][k] == t.rows[i][j]
  {
    var mask := Unrequested(t.columns, names);
    var r := KeepColumns(t, mask);
    var idx := Kept(mask);
    forall k | 0 <= k < |r.columns|
      ensures exists j :: 0 <= j < |t.columns| && t.columns[j] == r.columns[k] &&
                forall i :: 0 <= i < |t.rows| ==> r.rows[i][k] == t.rows[i][j]
    {
      var j := idx[k];
      assert t.columns[j] == r.columns[k];
      assert forall i :: 0 <= i < |t.rows| ==> r.rows[i][k] == t.rows[i][j];
    }
  }

  /** `remove_columns(df, cols_to_remove)`: fails, naming them, when some
      requested labels are absent; otherwise keeps every other column (every
      copy of a repeated label), in order, with its cells, and every row. */
  function RemoveColumns(t: Table, names: seq<string>): (r: Result<Table>)
    requires Rectangular(t)
    ensures r.Err? <==> exists c :: c in names && c !in t.columns
    ensures r.Err? ==> (r.error.MissingColumns? &&
              forall c :: c in r.error.labels <==> c in names && c !in t.columns)
    ensures r.Ok? ==> Rectangular(r.value) && |r.value.rows| == |t.rows|
    ensures r.Ok? ==> forall c :: c in r.value.columns <==> c in t.columns && c !in names
    ensures r.Ok? ==> Subsequence(r.value.columns, t.columns)
    ensures r.Ok? ==> KeepsUnrequested(t, names, r.value)
    ensures r.Ok? ==>
              forall k :: 0 <= k < |r.value.columns| ==>
                exists j :: 0 <= j < |t.columns| && t.columns[j] == r.value.columns[k] &&
                  forall i :: 0 <= i < |t.rows| ==> r.value.rows[i][k] == t.rows[i][j]
  {
    var missing := Absent(t, names);
    if missing != [] then
      assert missing[0] in names;
      Err(MissingColumns(missing))
    else
      KeepUnrequestedLabels(t, names);
      KeepUnrequestedCells(t, names);
      KeepUnrequestedPositions(t, names);
      Ok(KeepColumns(t, Unrequested(t.columns, names)))
  }

  /** With unique labels, every surviving column keeps its cells row by row. */
  lemma RemoveColumnsKeepsCells(t: Table, names: seq<string>)
    requires Valid(t)
    ensures var r := RemoveColumns(t, names);
            r.Ok? ==> (Distinct(r.value.columns) &&
              forall i, c :: 0 <= i < |t.rows| && c in r.value.columns ==>
                At(r.value.columns, r.value.rows[i], c) == At(t.columns, t.rows[i], c))
  {
    var r := RemoveColumns(t, names);
    if r.Ok? {
      var u := r.value;
      SubsequenceDistinct(u.columns, t.columns);
      forall i, c | 0 <= i < |t.rows| && c in u.columns
        ensures At(u.columns, u.rows[i], c) == At(t.columns, t.rows[i], c)
      {
        var k := IndexOf(u.columns, c);
        var j :| 0 <= j < |t.columns| && t.columns[j] == u.columns[k] &&
                 forall i :: 0 <= i < |t.rows| ==> u.rows[i][k] == t.rows[i][j];
        IndexOfDistinct(t.columns, j);
      }
    }
  }

  /** `remove_columns(df)` with the default list succeeds exactly when the
      frame has all seven default labels, and then none of them is left. */
  lemma RemoveDefaultColumns(t: Table)
    requires Rectangular(t)
    ensures var r := RemoveColumns(t, DefaultColumnsToRemove);
            (r.Ok? <==> forall c :: c in DefaultColumnsToRemove ==> c in t.columns) &&
            (r.Ok? ==> forall c :: c in DefaultColumnsToRemove ==> c !in r.value.columns)
  {
  }
}
